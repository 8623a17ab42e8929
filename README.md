# cloud-scatter: verified model of chunked upload and reassembly

cloud-scatter is a dashboard that "distributes" an uploaded file over four
storage nodes and lets the user download it again. Two pieces of it are
deterministic logic, and this project models and proves them in Dafny:

- **Upload planning and metadata recording** (`src/components/FileUpload.tsx`).
  `handleUpload` inserts a `files` record with status `uploading` and
  `num_parts = 4`. `simulateDistribution` then splits the size into four parts
  of `ceil(size / 4)` bytes, the last part taking what remains, and asks for up
  to four online nodes. It throws when fewer than four come back. Otherwise it
  writes one `file_parts` row per part (part `i + 1` on the `i`-th node),
  advances the progress bar by 25 % per row, and finally sets the record's
  status to `distributed`. Only metadata is written: no chunk bytes are stored
  and the stored checksum is a random placeholder.
- **Reassembly and naming** (`src/components/FileList.tsx`). `handleDownload`
  fetches chunk `owner/fileId/part{index}` for every part row in `part_index`
  order. It gives up at the first fetch that fails or returns no data, and
  otherwise concatenates the chunks and types the result with
  `getContentType`, a 23-entry extension table with a binary default.
  `handleChunkDownload` fetches one chunk under the same key and saves it as
  `base.chunk{i}.ext`.

Modules:

- `Wrappers` holds `Option` and `Result`.
- `Decimal` renders an integer the way a template literal does and parses it
  back.
- `UploadPlan` holds the pure size arithmetic, the planned part rows and the
  online-node query.
- `Upload` holds class `Backend`: the `files` and `file_parts` tables, the
  progress bar and a ghost log of every write in issue order. `HandleUpload`
  and `SimulateDistribution` are its methods; `SimulateDistribution` keeps
  the part loop of the source. The lemmas about the log state the order of the writes.
- `FileNames` holds `getContentType` and the chunk file name.
- `Download` holds the chunk key, the `HandleDownload` loop with its
  abort-on-first-failure behaviour, and the single-chunk download. The loop
  is specified over `Responses`, the store's answers for the listed parts in
  list order; `ResponsesAt` ties each answer to the fetch of its part's key.

The signed-in user, the rows the database queries return, the id the database
assigns to a new record, and the chunk store's answers (a map from key to a
response that is data, an error or no data) are all inputs.

Behaviours of the code worth knowing:

- The code always uses four parts and needs four online nodes. It never
  uses fewer parts, whatever the number of online nodes.
- The code does not reject an empty file. A 0-byte file gets four 0-byte
  parts.
- The last part's size is not always non-negative: it is negative for files of
  1, 2 and 5 bytes (`UploadPlan.LastPartNegativeIff`).
- The code never writes status `error`. When too few nodes are online, the
  record stays `uploading`.
- No digest is computed or checked anywhere, although the page's own
  description (src/pages/Index.tsx:80,88) promises SHA-256 checksums and
  verification of the fetched chunks. The download does not check that
  the record is `distributed`. Only the UI hides the button for other
  statuses.

## Model

| member | source | states |
|---|---|---|
| `UploadPlan.PartSize` | src/components/FileUpload.tsx:22-23 | the part size is the ceiling of size/4: four parts of it cover the file, and it overshoots by less than one per part |
| `UploadPlan.PartSizeAt` | src/components/FileUpload.tsx:44 | parts 1-3 get exactly the ceiling of a quarter of the file; no part, the last included, is larger than it, and the last is at least -2 |
| `UploadPlan.PlanParts` | src/components/FileUpload.tsx:37-45 | the plan has four rows, all for the same file, with part indices 1, 2, 3, 4 in order, row `i + 1` naming the `i`-th returned node |
| `UploadPlan.PlanSizesSum` | src/components/FileUpload.tsx:37-45 | the sizes of the four planned rows add up to exactly the file size |
| `UploadPlan.LastPartNegativeIff` | src/components/FileUpload.tsx:44 | the last part's size is negative exactly when the file has 1, 2 or 5 bytes |
| `UploadPlan.SmallFileLastParts` | src/components/FileUpload.tsx:44 | concrete last-part sizes: -2 for 1 byte, -1 for 2 and 5 bytes, 0 for 3 and 6 bytes |
| `UploadPlan.EmptyFilePlan` | src/components/FileUpload.tsx:22-44 | a 0-byte file is planned as four rows of size 0, not rejected |
| `UploadPlan.OnlineNodes` | src/components/FileUpload.tsx:26-30 | the node query returns at most the limit, and only online nodes of the registry |
| `UploadPlan.OnlineNodesCount` | src/components/FileUpload.tsx:26-30 | the query returns min(limit, number of online nodes) rows |
| `UploadPlan.OnlineNodesDistinct` | src/components/FileUpload.tsx:26-30 | nodes with distinct ids in the registry stay distinct in the query result |
| `UploadPlan.PlanOnOnlineNodes` | src/components/FileUpload.tsx:26-45 | over the query, every part is placed on an online node of the registry, and no two parts share a node |
| `Upload.ProgressPercent` | src/components/FileUpload.tsx:47 | after `k` parts the bar shows exactly 25k percent, between 0 and 100, and reaches 100 exactly when all four parts are written |
| `Upload.EnoughNodesIffFourOnline` | src/components/FileUpload.tsx:26-34 | the distribution proceeds exactly when the registry has at least four online nodes; a null answer never lets it proceed |
| `Upload.PartEffectsContents` | src/components/FileUpload.tsx:37-49 | after k loop iterations the part rows 1..k have been written in ascending order, with progress 25, 50, ... 25k, and no record insert or status change among them |
| `Upload.RecordCreatedUploading` | src/components/FileUpload.tsx:66-75 | when a file is selected and the insert returns an id, the second write inserts that file's record with status `uploading` and four parts; no other write inserts a record |
| `Upload.DistributedOnlyAfterAllParts` | src/components/FileUpload.tsx:37-55 | every status write is `distributed` (never `error`), and it comes only after the rows of parts 1, 2, 3, 4 of that file were written, in that order |
| `Upload.InsufficientNodesWritesNothing` | src/components/FileUpload.tsx:32-34 | with too few or no nodes, no part row and no status write happen; the upload writes only the progress reset and the `uploading` record |
| `Upload.DistributionProgress` | src/components/FileUpload.tsx:47 | a successful distribution shows progress 25, 50, 75, 100, non-decreasing and ending at 100 |
| `Upload.Backend.SimulateDistribution` | src/components/FileUpload.tsx:20-56 | succeeds exactly when the query returned at least four nodes; on success it appends the four planned rows, marks the file distributed and leaves progress at 100; on failure it changes nothing |
| `Upload.Backend.HandleUpload` | src/components/FileUpload.tsx:58-91 | does nothing without a selected file; resets the bar and stops after a failed record insert; otherwise inserts the `uploading` record under the new id; the record becomes `distributed` with its four planned rows only when distribution succeeds, and stays `uploading` with no rows otherwise; the bar ends at 0 in every case but the first |
| `Decimal.IntToString` | src/components/FileList.tsx:109 | the rendering is non-empty and starts with a minus sign exactly for negative numbers |
| `Decimal.ParseIntToString` | src/components/FileList.tsx:109 | parsing the rendered part index gives back the index |
| `Decimal.IntToStringInjective` | src/components/FileList.tsx:109 | two indices render the same exactly when they are equal |
| `Download.ChunkKey` | src/components/FileList.tsx:109 | every key lies under `owner/fileId/part` and goes on past it |
| `Download.ChunkKeyIndex` | src/components/FileList.tsx:109 | the text after `owner/fileId/part` is a numeral that parses back to the part index |
| `Download.ChunkKeyInjective` | src/components/FileList.tsx:109 | for a fixed owner and file, two part indices give the same key exactly when they are equal |
| `Download.PlannedChunkKeysDistinct` | src/components/FileList.tsx:109 | the four rows an upload writes lead the download to four different chunk keys |
| `Download.DownloadOutcome` | src/components/FileList.tsx:88-165 | without a user the download reports not authenticated; with a null or empty part list it reports no parts found; a saved file always carries the file's own name and its content type |
| `Download.FetchChunks` | src/components/FileList.tsx:107-130 | the loop fetches each listed part under its key in list order, and its result is the collected chunks or the failure of the first part whose fetch gave an error or no data |
| `Download.HandleDownload` | src/components/FileList.tsx:88-165 | the method's result is the download outcome: not authenticated, no parts, the first chunk failure, or the saved file |
| `Download.ResponsesAt` | src/components/FileList.tsx:107-113 | the answer the loop sees for the j-th listed part is the store's answer for that part's key `owner/file/part{index}` |
| `Download.CollectFailureSticks` | src/components/FileList.tsx:116-126 | once a fetch has failed, later parts do not change the outcome |
| `Download.CollectSucceedsIff` | src/components/FileList.tsx:107-130 | the loop gets through k parts exactly when each of their fetches yields data, and then holds those chunks in part-list order |
| `Download.CollectFailsAtFirst` | src/components/FileList.tsx:116-126 | a failure names the first part whose fetch gave an error or no data; all parts before it were fetched |
| `Download.ConcatPlacesChunk` | src/components/FileList.tsx:165 | in the joined bytes, chunk j sits unchanged at the sum of the earlier chunks' lengths, and the total length is the sum of all lengths |
| `Download.DownloadSucceedsIff` | src/components/FileList.tsx:88-165 | the download succeeds exactly when the user is signed in, the part list is non-empty and every chunk fetch yields data; the file is then saved under its own name and content type, holding the chunks concatenated in part-list order |
| `Download.DownloadPlacesChunks` | src/components/FileList.tsx:107-165 | after a successful download every listed part was fetched with data, and the chunk fetched for the j-th part sits unchanged at its offset in the saved file |
| `Download.DownloadFailsAtFirstBadChunk` | src/components/FileList.tsx:108-126 | if part j is the first whose fetch fails, the download produces no file and reports part j's index and message |
| `Download.HandleChunkDownload` | src/components/FileList.tsx:183-210 | a single chunk is saved exactly when the user is signed in and its key yields data, always as `application/octet-stream`, under the chunk file name, with the fetched bytes; otherwise it reports not authenticated or the unavailable part |
| `Download.ChunkDownloadAgreesWithFull` | src/components/FileList.tsx:183-210 | after a successful full download, each listed part's single-chunk download succeeds with the same bytes from the same key |
| `FileNames.MimeExtension` | src/components/FileList.tsx:135-159 | every extension in the table is non-empty |
| `FileNames.MimeType` | src/components/FileList.tsx:135-159 | no table entry maps to the default `application/octet-stream` |
| `FileNames.TableDistinct` | src/components/FileList.tsx:135-159 | no extension appears twice in the table |
| `FileNames.LookupHit` | src/components/FileList.tsx:160 | every extension in the table is looked up as its own MIME type |
| `FileNames.AfterLastDot` | src/components/FileList.tsx:134 | the extension is the longest dot-free suffix: either the whole name or the text after the last dot |
| `FileNames.AfterLastDotOf` | src/components/FileList.tsx:134 | the extension of `base.ext` is `ext` whenever `ext` has no dot |
| `FileNames.AfterLastDotWithoutDot` | src/components/FileList.tsx:134 | a name without a dot is its own extension |
| `FileNames.LookupMiss` | src/components/FileList.tsx:136-160 | an extension that no table entry has gets `application/octet-stream` |
| `FileNames.ContentTypeDefaultIff` | src/components/FileList.tsx:133-161 | a name gets `application/octet-stream` exactly when its lower-cased extension is in no table entry |
| `FileNames.ContentTypeOfExtension` | src/components/FileList.tsx:133-160 | the content type of `base.ext` is the table lookup of lower-cased `ext`, whatever `base` holds |
| `FileNames.ContentTypeWithoutDot` | src/components/FileList.tsx:134-160 | a name without a dot is looked up whole, lower-cased |
| `FileNames.ContentTypeEmptyExtension` | src/components/FileList.tsx:160 | a name ending in a dot gets `application/octet-stream` |
| `FileNames.ContentTypeIgnoresCase` | src/components/FileList.tsx:134 | names equal up to letter case get the same content type |
| `FileNames.TableAliases` | src/components/FileList.tsx:144-151 | `htm` and `html` map to `text/html`; `jpg` and `jpeg` map to `image/jpeg` |
| `FileNames.HtmlAliases` | src/components/FileList.tsx:144-145 | `.htm` and `.HTML` names both get `text/html` |
| `FileNames.JpegAliases` | src/components/FileList.tsx:150-151 | `.jpg` and `.JPEG` names both get `image/jpeg` |
| `FileNames.StripExtension` | src/components/FileList.tsx:208 | the base name is the whole name or the name minus a dot and its extension; it is shorter exactly when the name has a dot and the text after the last one is non-empty and holds no slash |
| `FileNames.ChunkFileName` | src/components/FileList.tsx:208-210 | the chunk file name has the same extension as the file's name, and so the same content type |
| `FileNames.ChunkFileNameOfExtension` | src/components/FileList.tsx:207-210 | for `base.ext` with a non-empty `ext` free of dots and slashes, the chunk is saved as `base.chunk{i}.ext`, with `ext` in its original case |
| `FileNames.ChunkFileNameKeepsWholeName` | src/components/FileList.tsx:208-210 | for `base.ext` with an empty extension or one containing a slash, the whole name stays in front of `.chunk{i}.ext` |
| `FileNames.ChunkFileNameWithoutDot` | src/components/FileList.tsx:208-210 | a name without a dot stays whole in front and also serves as its own extension |

## Left out

- React state, hooks, rendering, toasts, console logging and the realtime
  change channels are UI. The `uploading` flag and the reset of the selected
  file are not modelled. The progress bar is.
- Supabase authentication, table queries and storage downloads are inputs.
  The order in which the database returns rows is taken as given. The node
  query is modelled as the registry's online nodes in registry order, up to
  the limit.
- `Upload.Backend.HandleUpload` requires the id the database assigns to be
  new to the `files` table, since the source relies on the database for that.
- Part-row inserts are modelled as always landing, because the source never
  checks their results. The file-record insert reports an error, which the
  model represents as a missing id.
- The random placeholder checksum is not stored in the model's part rows. No
  digest is computed or checked anywhere, so there is no integrity property to
  state.
- Async/await, the 500 ms delay between part rows, and the object-URL trick
  that hands a blob to the browser are left out. Both downloads end with the
  saved file's name, content type and bytes.
- The `catch` blocks of the two downloads are left out. Two of the upload's
  throws are modelled as outcomes: the failed record insert
  (`RecordInsertFailed`) and the node check (`DistributionFailed`).
- `toLowerCase` is modelled on ASCII letters only. Unicode case mapping is
  not modelled.
- `Decimal.IntToString`: does not model JavaScript's exponent notation for
  integers of 10^21 or more, because part indices are small.
- The MIME table is a list of its 23 entries in source order, searched from
  the front. Its extensions are distinct (`FileNames.TableDistinct`), so the
  search finds the entry an object lookup would. Prototype keys
  such as `constructor`, which hit the JavaScript object's own properties, are
  not modelled.
- `fetchFiles` and `fetchFileParts` in FileList.tsx only load rows for display
  and are not modelled. The same holds for the size displays in MB/KB and the
  status colours.
- src/components/NodeCluster.tsx and src/pages/Index.tsx are not part of this
  model. They hold display code, and a floating-point usage percentage that
  divides by zero for a node of zero capacity.
- The split/concatenate round trip is not stated: the code never stores chunk
  bytes, so upload and download share only the key scheme
  (`Download.PlannedChunkKeysDistinct`).
