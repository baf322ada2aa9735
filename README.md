# Blob gateway model

`index.js` is a small Express server in front of one Azure Blob Storage
container. It lets a client upload files, list them, read one file's details
and delete one. A processing pipeline reports back through `POST /notify`: a
"processed successfully" notification moves the matching blob under
`succeeded_files/`. The last notification waits in a single slot until
`GET /latest-notification` reads and clears it.

This project models that server's logic in Dafny:

- `text.dfy` (module `Text`): the JavaScript string operations the handlers
  use. These are `toLowerCase`, `startsWith`, `endsWith`, `includes`, and
  `split`/`join` on a one-character separator.
  - `IndexOf` and `LastIndexOf` are helpers, not calls the server makes.
    `Split` is defined through `IndexOf`. The last-segment definition of the
    extension uses `LastIndexOf`.
- `mime.dfy` (module `Mime`): `getMimeType` and the POSIX `path.extname` it
  relies on.
  - `ExtName` follows the right-to-left loop of Node's implementation
    (`Scan` and `ScanResult`).
  - `ExtNameIsLastSegmentExt` proves it equal to a direct definition: "from
    the last `.` of the last path segment". The extension is empty when that
    `.` is the segment's first character, when the segment is `..`, or when
    it has no `.`.
- `keys.dfy` (module `Keys`): how the handlers build and read blob keys.
  - Upload writes `<uuid>-<originalname>`.
  - A move writes `succeeded_files/<key>`.
  - The listing shows the text after the first `-` and a status.
  - A notification takes the text before the first `-` of its `file_name`.
- `tags.dfy` (module `Tags`): the upload's `tags` form field after
  `JSON.parse` (or its fallback). It covers the metadata value stored per file
  and the tag list read back.
- `store.dfy` (module `Store`): the container as a sequence of blobs.
  - The sequence is kept in listing order, ascending by name.
  - `Get`, `Put` and `Remove` are its lookup, write and delete.
  - `FirstMatch` is the "first blob in listing order whose name ends with /
    starts with" search the handlers perform.
- `gateway.dfy` (module `Gateway`): class `Gateway`.
  - It has two fields: the container's blobs and the `latestNotification`
    slot (`index.js:184`).
  - Each route handler and `moveBlobToSucceededFolder` is a method. Each
    states the new store through a specification function
    (`PutAll`/`UploadBlobs`, `Moved`, `NotifyEffect`).
  - The handlers for upload, list, delete, details and notify return the HTTP
    status they send.
  - `LatestNotification` returns the slot's contents; the route always
    answers 200.
  - `MoveBlobToSucceededFolder` returns nothing, as the source function does.

Things the model makes explicit:

- **Fresh UUIDs** are the `ids` parameter of `Upload`.
- **Storage faults** are parameters:
  - `failAt` is the index of the upload that fails.
  - `fault` makes listing fail.
- **The copy's terminal status** is the `copyStatus` parameter.
- **Display names:** a real UUID contains `-`, so the listing's "remove UUID
  prefix" drops only the UUID's first group (`UuidDisplayName`).
- **Notification matching:** a notification matches on the first eight hex
  digits only (`UuidNotificationPrefix`). Any blob whose name starts with
  them is eligible, and the first in listing order is moved.

## Model

| member | source | states |
|---|---|---|
| Text.Lower | index.js:25 | lower-cases exactly the letters A–Z and never yields an upper-case letter |
| Text.LowerStr | index.js:25 | `toLowerCase`, character by character |
| Text.StartsWith | index.js:122 | `startsWith`: the string begins with the prefix |
| Text.EndsWith | index.js:142 | `endsWith`: the string ends with the suffix |
| Text.Contains | index.js:193 | `includes`: the phrase occurs somewhere in the string |
| Text.Split | index.js:117 | `split` on a one-character separator |
| Text.Join | index.js:117 | `join` with a one-character separator |
| Text.LowerStrIdempotent | index.js:193 | lower-casing twice is lower-casing once |
| Text.ContainsAt | index.js:193 | `includes` holds exactly when the phrase occurs at some position |
| Text.IndexOf | index.js:117 | the position of the first occurrence of the separator, or None exactly when it does not occur |
| Text.LastIndexOf | index.js:25 | the position of the last occurrence of the character, or None exactly when it does not occur |
| Text.SplitPieces | index.js:117 | `split` yields at least one piece, and no piece holds the separator |
| Text.SplitHead | index.js:199 | the first piece of `split` is everything before the first separator |
| Text.JoinSplit | index.js:121 | joining the pieces of a split with the same separator gives the string back |
| Text.SplitJoin | index.js:90 | splitting a join of separator-free pieces gives the pieces back |
| Text.AfterFirstSeparator | index.js:117 | `split(c).slice(1).join(c)` is everything after the first `c`, or "" when there is none |
| Mime.TrimTrailingSlashes | index.js:25 | the path without its trailing `/`, a prefix of the path followed only by `/` |
| Mime.BaseName | index.js:25 | the last path segment contains no `/` |
| Mime.AfterLastSlash | index.js:25 | the text after the last `/` contains no `/` |
| Mime.LastSegmentExt | index.js:25 | the extension is empty or a `.` followed by no further `.`, and is a proper suffix of the last segment |
| Mime.SegmentExt | index.js:25 | a segment's extension is empty or a `.` with no further `.`, and is a proper suffix of the segment |
| Mime.ExtName | index.js:25 | Node's POSIX `path.extname`: the loop followed by its return statement |
| Mime.Scan | index.js:25 | Node's extname loop keeps its markers ordered within the path: segment start ≤ last dot < segment end ≤ length |
| Mime.ScanSpec | index.js:25 | after the loop, the markers are the end of the last segment, its last `.`, and whether a `.` precedes that `.` |
| Mime.ScanStops | index.js:25 | the loop stops just after a `/` that comes before the last segment's end, or at position 0 |
| Mime.ExtNameIsLastSegmentExt | index.js:25 | Node's loop computes the extension of the last segment: from its last `.`, empty when that `.` is the segment's first character, for `..` and for names without `.` |
| Mime.BaseNameAt | index.js:25 | the last segment is the text between the last `/` before the trailing ones and those trailing `/` |
| Mime.AfterLastSlashAt | index.js:25 | the text after the last `/` starts right after a `/` (or at 0) that no later `/` follows |
| Mime.FinalState | index.js:25 | the loop's return statement gives the extension of the last segment |
| Mime.GetMimeType | index.js:24-30 | the content type is always one of the four types |
| Mime.ExtensionBySuffix | index.js:25-28 | the lower-cased extension is `.xyz` exactly when the last segment ends with `.xyz` (any case) after at least one other character |
| Mime.SuffixGivesExt | index.js:25 | a last segment ending in `.xyz` after another character has extension `.xyz` up to case |
| Mime.ExtGivesSuffix | index.js:25 | an extension that lower-cases to `.xyz` ends the last segment after another character |
| Mime.PdfBySuffix | index.js:26 | application/pdf exactly for names whose last segment ends in `.pdf`, any case |
| Mime.PngBySuffix | index.js:27 | image/png exactly for names ending in `.png`, any case |
| Mime.JpegBySuffix | index.js:28 | image/jpeg exactly for names ending in `.jpg` or `.jpeg`, any case |
| Mime.FallbackBySuffix | index.js:29 | application/octet-stream exactly when none of the four extensions applies |
| Keys.BlobKey | index.js:83 | the upload's key `<id>-<originalname>` |
| Keys.SucceededKey | index.js:35 | the move's destination `succeeded_files/<key>` |
| Keys.DisplayName | index.js:117 | the listed name is everything after the key's first `-`, or "" when it has none |
| Keys.StatusOf | index.js:122 | Processed for keys starting with `succeeded_files/`, Pending otherwise |
| Keys.NotificationPrefix | index.js:199 | the notification prefix is everything before the first `-` (or the whole name), is a prefix of `file_name` and holds no `-` |
| Keys.DisplayNameRoundTrip | index.js:83 | for an id without `-`, listing an uploaded key shows the original file name |
| Keys.UuidDisplayName | index.js:82-83 | for a real UUID the listed name keeps the UUID's last four groups before the file name, so it is not the file name |
| Keys.UuidNotificationPrefix | index.js:199 | for `file_name = <uuid>-…` the prefix is the UUID's first eight characters |
| Keys.NotificationMatchesKey | index.js:199-204 | a `file_name` of the form `<id>-…` gives a prefix that the uploaded key `<id>-<name>` starts with |
| Keys.StatusOfSucceeded | index.js:122 | status is Processed exactly for keys of the form `succeeded_files/<key>`, which is what a move writes |
| Keys.UploadedIsPending | index.js:82-83 | a key written under a UUID is listed as Pending |
| Tags.EntryMeta | index.js:90 | one entry's metadata: a list joined with `,`, a scalar kept, `null` absent |
| Tags.TagMeta | index.js:73-77 | looking up a file's tag throws exactly when the field parsed to `null` |
| Tags.TagList | index.js:121 | the tag list is empty exactly when the metadata is absent or "" |
| Tags.GroupRoundTrip | index.js:90 | an array of comma-free tags (other than `[""]`) is stored joined and read back as the same array |
| Tags.TextRoundTrip | index.js:90 | a single comma-free non-empty tag reads back as a one-element list |
| Tags.TagListJoin | index.js:121 | joining the tag list with `,` gives back the stored metadata |
| Tags.UnparsableOnlyFirst | index.js:73-77 | when `tags` does not parse, only file 0 gets the raw text, and later files get no tags |
| Tags.ShortArrayNoTag | index.js:90 | files beyond the end of the tags array get no tag |
| Store.BelowIrreflexive | index.js:109 | no name lists before itself |
| Store.BelowTransitive | index.js:109 | listing order is transitive |
| Store.BelowTotal | index.js:109 | any two distinct names are ordered one way or the other |
| Store.SortedDistinct | index.js:109 | two positions of a listing hold different names |
| Store.Get | index.js:41 | a found blob is in the store under that name; None means no blob has the name |
| Store.GetAt | index.js:113-114 | looking up the name at a listing position gives that position's blob |
| Store.Put | index.js:93-96 | a write introduces no blob other than the one written |
| Store.Remove | index.js:143 | a delete introduces nothing and leaves no blob under the key |
| Store.GetPut | index.js:93-96 | after a write the name holds the new blob and every other name is unchanged |
| Store.PutSorted | index.js:93-96 | a write keeps the listing order |
| Store.GetRemove | index.js:143 | after a delete the key holds nothing and every other name is unchanged |
| Store.RemoveSorted | index.js:143 | a delete keeps the listing order |
| Store.RemoveAt | index.js:141-143 | deleting the name at a listing position drops exactly that entry |
| Store.RemoveUnique | index.js:143 | removing a name only one position holds drops exactly that position |
| Store.RemoveKeepsHead | index.js:143 | when the head's name is not removed, dropping position i - 1 of the tail drops position i of the whole |
| Store.RemoveNothing | index.js:143 | deleting a name no blob has changes nothing |
| Store.GetWithout | index.js:141-143 | after deleting the entry at position i, its name holds nothing and other names are unchanged |
| Store.SortedExtensional | index.js:109 | two listings that hold the same blob under every name are identical |
| Store.IndexOfBlob | index.js:109 | a blob found by name sits at some position of the listing |
| Store.GetAbsentAfterHead | index.js:109 | the first name of a listing occurs nowhere later |
| Store.PutAll | index.js:80-97 | the store after writing a sequence of blobs one after another |
| Store.PutAllSorted | index.js:80-97 | a sequence of writes keeps the listing order |
| Store.GetPutAll | index.js:80-97 | after a sequence of writes, a name holds the last blob written under it, or what it held before |
| Store.LastWithName | index.js:80-97 | the last position of a given name in a sequence of writes, or None when the name is never written |
| Store.LastWithNameIs | index.js:80-97 | the last position written under a name is the one no later write repeats |
| Store.FirstMatch | index.js:141-142 | the first listing position whose name ends with / starts with the pattern, with no earlier match; None when nothing matches |
| Gateway.FileBlob | index.js:81-96 | the blob an upload writes for one file: key, buffer, mime type and tags metadata |
| Gateway.Describe | index.js:116-123 | the listing entry for a blob: display name, key, content type, tags, status |
| Gateway.Moved | index.js:32-67 | the store after a move: unchanged for a missing key, else the copy written and the source deleted on "success" |
| Gateway.IsSuccessMessage | index.js:193 | the lower-cased message contains "processed successfully" |
| Gateway.NotifyEffect | index.js:193-214 | the store after a notification: the first blob starting with the prefix is moved, for a success message only |
| Gateway.UploadStop | index.js:79-103 | the upload stops at the first file whose tag lookup throws or whose write fails, or after the last file |
| Gateway.UploadBlobs | index.js:80-97 | an upload that stops at file n writes exactly n blobs |
| Gateway.UploadBlobsKeys | index.js:83 | the blob for file k is keyed `<ids[k]>-<originalname>` |
| Gateway.UploadStep | index.js:80-97 | one more loop iteration writes the next file's blob over the store so far |
| Gateway.UploadStoresFile | index.js:83-96 | after the upload each stored file's key holds its buffer, mime type and tags, unless a later file reused the key |
| Gateway.UploadKeepsOtherKeys | index.js:80-97 | an upload leaves every key it did not write unchanged |
| Gateway.ListUploadedFile | index.js:116-123 | an uploaded file is listed with the UUID's last groups plus its name, its key, its mime type, its tags and Pending |
| Gateway.MovedGet | index.js:32-67 | a move changes nothing for a missing key; otherwise the destination gets the source's data, and the source is deleted exactly when the copy succeeded; nothing else changes |
| Gateway.SuccessMessageIgnoresCase | index.js:193 | whether a message asks for a move does not depend on its letter case, and holds exactly when the phrase occurs in the lower-cased message |
| Gateway.NotifyMovesUploadedFile | index.js:186-217 | a success notification for `<uuid>-…` moves the uploaded blob to `succeeded_files/` and deletes the original when the copy succeeds, given no earlier blob shares the prefix |
| Gateway.Gateway.constructor | index.js:184 | the gateway starts with the given container and an empty notification slot |
| Gateway.Gateway.MoveBlobToSucceededFolder | index.js:32-67 | the new store is `Moved(old, name, copyStatus)`; the listing order and the slot are kept |
| Gateway.Gateway.Upload | index.js:69-104 | status 200 when every file was written, else 500; the store is the old one with the blobs of the files before the stopping point written in order |
| Gateway.Gateway.ListFiles | index.js:106-132 | on success, one entry per blob in listing order, each describing that blob; on a fault, 500 and nothing |
| Gateway.Gateway.DeleteFile | index.js:134-154 | 200 and exactly the first blob whose name ends with the name removed; 404 and no change when none does; 500 and no change on a fault |
| Gateway.Gateway.FileDetails | index.js:156-182 | 200 with the requested name, the first match's content type and tags; 404 when nothing matches; never changes the store |
| Gateway.Gateway.Notify | index.js:186-221 | always 200; the slot holds the notification; the store becomes `NotifyEffect`, which moves the first blob starting with the prefix only for a success message |
| Gateway.Gateway.LatestNotification | index.js:223-226 | returns the slot's contents (None is `{}`) and clears it; the store and its order are unchanged |
| Gateway.NotifyThenPollTwice | index.js:190-225 | after a notification, the first poll returns it and the second returns `{}` |

## Left out

- Express, multer and CORS are left out, and so is the server's start-up:
  routing, body parsing and JSON responses.
  - A handler is a method returning its status code and its body's data.
  - Response message texts and blob URLs are not modelled.
- The Azure SDK is replaced by the abstract store in `store.dfy`.
  - Listing order is modelled as ascending code-point order of names.
  - The connection string and the container name are configuration and are
    not modelled.
- `beginCopyFromURL` with `pollUntilDone` is one step. Its terminal status is
  a parameter, and there is no polling or intermediate state.
- `uuidv4()` becomes the `ids` parameter, since the model has no randomness.
  - Uniqueness of fresh ids is not assumed.
  - Collisions are handled by `UploadStoresFile` (a later file with the same
    key wins).
- `JSON.parse` is not modelled as a parser. Its outcome is the `TagsField`
  variant.
  - A JSON object's keys are matched by the file index in decimal.
  - A nested array is represented by the string forms of its elements.
- Logging (`console.log`/`console.error`) is left out.
- Concurrency between requests is left out: each handler runs to completion
  before the next starts.
- The connection credential is not reproduced anywhere in the model.
- Text.Lower: lower-cases ASCII letters only. This agrees with
  `toLowerCase` for every comparison the server makes. No non-ASCII character
  lower-cases to a string made of the letters in `.pdf`/`.png`/`.jpg`/`.jpeg`
  and "processed successfully": the Kelvin sign and dotted capital I lower to
  `k` and to `i` with a combining mark.
- Mime.ExtName: POSIX semantics only, with characters taken as code points
  rather than UTF-16 code units.
- Tags.TagMeta: an `undefined` or `null` metadata value is taken as absent. An
  upload that passes `tags[i] === null` is therefore stored without tags.
- Gateway.Gateway.MoveBlobToSucceededFolder: a copy that ends in a status
  other than "success" is modelled as leaving a destination blob that holds
  the source's data.
  - Errors thrown by the SDK before the copy are not modelled separately.
  - Such errors leave the store as it was, like a missing source.
- Gateway.Gateway.Notify: `message` and `file_name` are taken to be strings.
  - Other JSON values would make `toLowerCase` or `split` throw after the slot
    is set.
  - The `blobMoved` flag only selects a log line, so it is not modelled.
- Gateway.Gateway.Upload: a request without a multipart body
  (`req.files` undefined) is not modelled.
- Gateway.Gateway.DeleteFile: a fault while deleting the matching blob is not
  distinguished from one while listing. Both give 500 and leave the store as
  it was.
