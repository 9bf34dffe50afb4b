# AWS-CGS file uploader, modelled in Dafny

The uploader reads a JSON config that names two storage backends: Amazon
S3 (`"s3"`, a bucket and a CSV credentials file) and Google Cloud Storage
(`"gcs"`, a bucket and a service-account file). It also maps file
categories to extensions (`"file_types"`). `FileUploader` builds one
uploader per listed backend. `upload_files` then walks a directory. It
sends every regular file to each backend whose categories list the file's
lower-cased extension. The object key is the file's basename.
new_methods.py revises the uploaders and the walk:
- S3 gets a multipart upload (create, one part per chunk, complete).
- GCS gets a resumable upload.
- Above a size threshold, the walk uses these large-file uploads.

The model has these modules:

- `Paths`: `str.split`, the last piece of a split (basename and extension), POSIX `os.path.join`, and ASCII `lower()`.
- `Credentials`: `S3Uploader.read_credentials` over already parsed CSV rows.
- `Routing`: `FileUploader.get_file_ext`, which expands categories into extensions.
- `Chunking`: the successive reads of `file.read(multipart_chunksize)`, modelled as chunks of a byte sequence.
- `Sdk`: the boto3 and google-cloud-storage clients, modelled as one `Client` class. The class records every call in its `trace`. An `oracle` gives the reply to the call at each position, which is either a returned value or a raised exception.
- `Uploaders`:
  - `S3Uploader.upload_file` and `upload_large_file`;
  - `GCSUploader.upload_file` and `upload_large_file`.
- `Orchestrator`: `FileUploader.__init__` (after the config is parsed) and `upload_files`. It covers the original walk of file_uploader.py and the patched walk of new_methods.py (`Revision`).
- `WalkProperties`: properties of a whole walk:
  - how many uploads start per backend;
  - where each call goes;
  - where a GCS `NotFound` ends the walk.
- `Scenarios`: the directory of file_uploader test suite, stated for any directory and any replies.

Every method that calls the SDK is proved against a function of the
replies. Its `ensures` reads `client.trace == old(client.trace) + F(...)`,
and F's properties are proved as lemmas. Examples: `MultipartCalls` for a
multipart upload, `WalkRun` for a walk.

Some behaviours of the code that the model keeps as they are:
- The code never calls `abort_multipart_upload`. A failed part upload is caught and printed, and the multipart upload is left open.
- Failures are only printed. No report is built and nothing is counted.
- An unreadable S3 credentials file or a bad GCS service-account file makes `FileUploader.__init__` raise. The other backend is not kept.
- A GCS `NotFound` on a single-shot upload is re-raised. It ends the whole walk; the model calls that `StoppedByNotFound`.
- A failed `complete_multipart_upload` is caught like any other failure.
- A missing directory makes `upload_files` print and return normally (`NoDirectory`).
- A config without "file_types" makes `__init__` raise a KeyError as soon as a listed backend has a category to expand (`NoFileTypes`).

## Model

| member | source | states |
|---|---|---|
| Paths.LastPiece | file_uploader.py:78 | the text after the last separator is no longer than the string and holds no separator |
| Paths.Basename | file_uploader.py:151 | the object key `os.path.basename(path)` is no longer than the path and holds no '/' |
| Paths.Extension | file_uploader.py:251 | the routing extension is no longer than the name and has no upper-case letter |
| Paths.Split | file_uploader.py:103 | `split` always yields at least one piece, and exactly one iff the separator does not occur, in which case it is the whole string |
| Paths.SplitJoin | file_uploader.py:103 | joining the pieces of a split with the separator gives back the string, and no piece holds the separator |
| Paths.SplitLastIsLongestSuffix | file_uploader.py:251 | `s.split(sep)[-1]` is the longest suffix of `s` without `sep`: all of `s`, or preceded by `sep` |
| Paths.LastPieceIsLongestSuffix | file_uploader.py:78 | the last piece read from the back, which is what `os.path.basename` computes for '/', is that same longest suffix |
| Paths.LongestSuffixUnique | file_uploader.py:251 | there is only one longest suffix without the separator |
| Paths.LastPieceIsSplitLast | file_uploader.py:251 | the basename and extension helper agrees with `split(sep)[-1]` on every string |
| Paths.LastPieceAfterSeparator | file_uploader.py:151 | the last piece of `prefix + sep + tail` is `tail` when `tail` holds no separator |
| Paths.LastPieceWithoutSeparator | file_uploader.py:251 | a string without the separator is its own last piece |
| Paths.ExtensionAfterLastDot | file_uploader.py:251 | the extension of `stem.ext` is `ext` lower-cased, whatever `stem` holds, and it has no upper-case letter |
| Paths.ExtensionWithoutDot | file_uploader.py:251 | a name without '.' routes by the whole name lower-cased |
| Paths.PathJoinShape | file_uploader.py:244 | `os.path.join(dir, name)` is `name` when `name` is absolute, otherwise starts with `dir`, and always ends with `name` |
| Paths.PathJoinExamples | file_uploader.py:244 | an empty directory adds nothing, a trailing '/' is not doubled, a plain directory gets one '/', and an absolute name replaces the directory |
| Paths.BasenameOfJoin | file_uploader.py:244 | the key of `os.path.join(dir, name)` is `name` when `name` holds no '/', for every `dir`, empty or ending in '/' included |
| Paths.Lower | file_uploader.py:251 | `lower()` keeps the length |
| Paths.LowerKeepsLowercase | file_uploader.py:251 | `lower()` leaves a string without upper-case letters unchanged |
| Paths.LowerHasNoUpper | file_uploader.py:251 | `lower()` leaves no upper-case letter |
| Paths.ExtensionOfDoubleSuffix | file_uploader.py:251 | "a.tar.gz" routes as "gz" |
| Paths.ExtensionOfUpperCaseName | file_uploader.py:251 | "photo.JPG" routes as "jpg" |
| Paths.ExtensionOfNameWithoutDot | file_uploader.py:251 | "README" routes as "readme" |
| Credentials.FirstComplete | file_uploader.py:56-64 | the index found holds a row with both key columns filled and no earlier row has both; none is found iff no row has both |
| Credentials.ReadCredentials | file_uploader.py:48-69 | an unreadable file and a file without a complete row give the two wrapped errors; otherwise the pair of the first complete row, which is a row of the file |
| Credentials.FirstIsFirst | file_uploader.py:56-64 | a complete row preceded only by incomplete rows is the one returned |
| Credentials.SingleRowExample | test_file_uploader.py:27-39 | the test's header and single row give ("test_access_key", "test_secret_key") |
| Credentials.SkipsIncompleteRows | file_uploader.py:56-66 | rows missing a key or holding an empty one are skipped, and later rows do not matter |
| Routing.GetFileExt | file_uploader.py:218-232 | an unknown backend key is an error (the KeyError); a config without "file_types" is the other KeyError unless the backend has no category, which gives no extensions; otherwise the extensions of its categories, concatenated in order |
| Routing.ExpandAppend | file_uploader.py:224-227 | the extension list of a concatenation of category lists is the concatenation of their lists |
| Routing.ExpandMembers | file_uploader.py:224-227 | an extension is routed to a backend iff one of its categories is defined in "file_types" and lists it |
| Routing.UndefinedCategoryIsSkipped | file_uploader.py:228-230 | a category missing from "file_types" adds nothing and does not stop the expansion |
| Routing.DefaultRoutingExample | test_file_uploader.py:124-140 | with the default `UPLOAD_FILE_TYPES` and the test config, S3 gets {jpg, png, mp4} and GCS gets {pdf} |
| Chunking.Chunks | new_methods.py:16 | the read loop yields no chunk iff the file is empty |
| Chunking.ChunksCount | new_methods.py:15 | the loop makes ceil(size / chunksize) reads, the `num_parts` the code computes |
| Chunking.ChunkSizes | new_methods.py:16 | every chunk is non-empty and at most chunksize long, and all but the last are exactly chunksize |
| Chunking.FlattenChunks | new_methods.py:16 | the chunks, concatenated, are the file's content |
| Chunking.ChunksUnfold | new_methods.py:16 | the first chunk is the first min(chunksize, remaining) bytes, and the rest are the chunks of what follows |
| Sdk.Client.Send | file_uploader.py:82 | an SDK call is appended to the trace and its reply is the oracle's reply for its position |
| Uploaders.S3UploadFile | file_uploader.py:73-87 | one `upload_file(path, bucket, basename(path))`; any exception is swallowed |
| Uploaders.GcsUploadFile | file_uploader.py:145-168 | one upload of `path` to blob basename(path) in the bucket, which re-raises iff it raised NotFound; the bucket and blob lookups before the `try` are taken not to raise |
| Uploaders.GcsUploadLargeFile | new_methods.py:39-54 | one resumable upload to blob basename(path) with the uploader's chunk size; every exception, NotFound included, is swallowed |
| Uploaders.FirstFailure | new_methods.py:16-25 | the number of part uploads that returned before the first one that raised, all of them when none raised |
| Uploaders.SendNextPart | new_methods.py:16-25 | one turn of the loop reads the next chunk and uploads it with the next part number |
| Uploaders.SendParts | new_methods.py:14-25 | parts are uploaded up to and including the first one that raises; every part was uploaded iff none raised, and then the parts list holds each returned ETag with its number |
| Uploaders.S3UploadLargeFile | new_methods.py:4-34 | a multipart upload to the bucket under basename(path), in chunks of `multipart_chunksize` |
| Uploaders.MultipartUpload | new_methods.py:10-31 | the calls are create, then the parts, then the completion, each only when the calls before it returned |
| Uploaders.SendPartsAndComplete | new_methods.py:16-31 | after a successful create: the parts, then the completion only when every part returned |
| Uploaders.SentBytesOfParts | new_methods.py:16-23 | the first k part uploads carry the first k chunks, concatenated |
| Uploaders.MultipartUsesOneUpload | new_methods.py:10-31 | every call goes to the same bucket and key; the first creates the upload; every later one is a part or the completion carrying the returned UploadId |
| Uploaders.MultipartPartsInOrder | new_methods.py:14-25 | part uploads are numbered 1, 2, ... in call order and carry the successive chunks |
| Uploaders.MultipartCompletesIffAllPartsSucceed | new_methods.py:16-34 | the last call is the completion iff the create and all ceil(size / chunksize) parts returned; no earlier call is a completion |
| Uploaders.MultipartCompletionLists | new_methods.py:24-31 | a completed upload made ceil(size / chunksize) part calls and lists parts 1..k with their returned ETags |
| Uploaders.MultipartCompletionSendsAll | new_methods.py:16-31 | a completed upload sent exactly the file's content in its parts |
| Uploaders.MultipartStopsAtFirstFailure | new_methods.py:10-34 | an upload that does not complete ends with the call that raised, and every call before it returned |
| Uploaders.MultipartSendsPrefix | new_methods.py:16-23 | whatever happens, the bytes sent are a prefix of the content |
| Uploaders.MultipartOfEmptyContent | new_methods.py:16-31 | an empty file creates the upload and completes it with no parts |
| Uploaders.MultipartFourParts | new_methods.py:15-31 | 2,000,000 bytes in chunks of 500,000 with every call returning give four parts and one completion listing them |
| Orchestrator.Init | file_uploader.py:176-232 | construction fails iff a listed backend cannot be built; the error is S3's when S3 fails, its credentials error before its routing KeyError, and otherwise GCS's, in the same order; on success a backend exists iff the config lists it, with its bucket, its credentials and its expanded extensions |
| Orchestrator.UploadToS3 | new_methods.py:89-93 | a file whose extension S3 accepts is uploaded once to S3, multipart above the threshold only in the patched walk; any other file makes no call |
| Orchestrator.UploadToGcs | new_methods.py:96-100 | a file whose extension GCS accepts is uploaded once to GCS, resumable above the chunk size only in the patched walk; it re-raises only a single-shot NotFound, the GCS lookups being taken not to raise |
| Orchestrator.UploadEntry | file_uploader.py:243-259 | an entry that is not a file makes no call; a file goes first to S3, then to GCS |
| Orchestrator.WalkOfStopsThere | file_uploader.py:163-164 | once a NotFound escapes, the later entries make no call |
| Orchestrator.WalkOfPrefix | file_uploader.py:242-259 | the walk of the first j entries makes a prefix of the calls of the whole walk, and if it stopped so did the whole walk |
| Orchestrator.WalkOfSlot | file_uploader.py:242-259 | when the walk reaches entry i, that entry's own run is the block of the walk's calls right after those of the entries before it |
| Orchestrator.WalkAdvance | file_uploader.py:243-259 | one pass of the loop adds the calls of the next entry |
| Orchestrator.Walk | file_uploader.py:242-259 | the entries are processed in order up to the first NotFound that escapes |
| Orchestrator.UploadFiles | file_uploader.py:235-259 | a missing directory makes no call and returns; otherwise the calls are those of the walk, and the result says whether a NotFound escaped |
| WalkProperties.StartCountOfHead | file_uploader.py:254-259 | a call sequence whose only possible start is its head counts one start iff the head is one |
| WalkProperties.S3CallsStart | new_methods.py:89-93 | the S3 calls for a file start exactly one S3 upload, as their first call, and no GCS upload |
| WalkProperties.S3CallsFit | new_methods.py:4-31 | every S3 call for a file goes to the S3 bucket under the file's basename |
| WalkProperties.GcsPartShape | file_uploader.py:258-259 | the GCS part for a file is one call when GCS accepts the extension, none otherwise, and it stops iff it is a single-shot upload that raised NotFound (the GCS lookups being taken not to raise) |
| WalkProperties.EntryParts | file_uploader.py:253-259 | unfolds a file's run into its S3 calls followed by its GCS call, the step the other entry lemmas start from |
| WalkProperties.S3PartStartCount | file_uploader.py:254-255 | the S3 branch starts one S3 upload iff S3 accepts the extension, and no GCS upload |
| WalkProperties.GcsPartStartCount | file_uploader.py:258-259 | the GCS branch starts one GCS upload iff GCS accepts the extension, and no S3 upload |
| WalkProperties.EntryStartCount | file_uploader.py:246-259 | an entry starts one upload on a backend iff it is a file and that backend accepts its extension |
| WalkProperties.EntryStartCalls | new_methods.py:88-100 | only the first call of an entry can start an S3 upload and only the last can start a GCS upload, each with the file's key |
| WalkProperties.EntryCallsFit | file_uploader.py:253-259 | every call of an entry goes to an initialised backend's bucket under the file's basename, and only the last can be a GCS call |
| WalkProperties.EntryStop | file_uploader.py:163-164 | an entry stops the walk iff its last call is a single-shot GCS upload that raised NotFound, and no earlier call of it is one (the GCS lookups being taken not to raise) |
| WalkProperties.WalkOfStarts | file_uploader.py:242-259 | for a step that starts one upload on a backend per qualifying file, the number of uploads the walk starts there is at most the number of qualifying files, and equal to it when the walk was not stopped |
| WalkProperties.WalkOfFits | file_uploader.py:242-259 | a walk whose entries call only initialised backends calls only those |
| WalkProperties.WalkOfStops | file_uploader.py:242-259 | a walk of entries that stop only at a NotFound stops only at one, which is its last call |
| WalkProperties.WalkStarts | file_uploader.py:242-259 | for each backend, the number of uploads the walk starts there is at most the number of files that backend accepts, and equal to it unless a NotFound stopped the walk |
| WalkProperties.WalkCallsFit | file_uploader.py:253-259 | every call of the walk goes to an initialised backend's bucket |
| WalkProperties.EntryStartsPlaced | file_uploader.py:253-259 | a file accepted by S3 has its S3 upload as its first call; a file accepted by GCS has its GCS upload as its last call |
| WalkProperties.WalkReachesEveryEntry | file_uploader.py:242-259 | a walk that was not stopped did not stop before any of its entries |
| WalkProperties.StepUploadsOnce | file_uploader.py:246-259 | the walk's step runs every entry with one upload per backend that accepts the file and none on the others, the S3 one first and the GCS one last |
| WalkProperties.WalkOfEntryUploads | file_uploader.py:242-259 | for such a step, each file the walk reaches has its own block of the walk's calls, right after those of the entries before it, with one upload per backend that accepts it, the S3 one first and the GCS one last |
| WalkProperties.WalkStopsAtFirstNotFound | file_uploader.py:163-164 | the walk ends early only on a single-shot GCS NotFound, which is its last call, and no earlier call of the walk is one (the GCS lookups being taken not to raise) |
| Scenarios.ExtensionOf | file_uploader.py:251 | a lower-case extension after the last dot is the routing extension |
| Scenarios.RoutedEntryRun | file_uploader.py:251-259 | a file accepted by exactly one backend gives one upload to that backend under its basename, and an S3 one never stops the walk |
| Scenarios.TwoS3OneGcsWalk | file_uploader.py:242-259 | two S3 files and one GCS file give two S3 uploads and one GCS upload, in walk order |
| Scenarios.TestEntryFacts | test_file_uploader.py:146-162 | a test file `stem.ext` in a directory routes by `ext` and is uploaded under the key `stem.ext` |
| Scenarios.TestDirectoryRouting | test_file_uploader.py:124-140 | with the test's routing, the image and the video go to S3 only and the document to GCS only |
| Scenarios.TestDirectoryWalk | test_file_uploader.py:146-162 | when the directory exists and holds the test's jpg, mp4 and pdf files as regular files, with any stems and in any directory, the walk gives the S3 uploads of the first two and the GCS upload of the third, under their basenames and at their `os.path.join` paths, whatever the services reply |
| Scenarios.TestDirectoryPaths | test_file_uploader.py:160-162 | those paths, for the test's `test_directory`, are the `test_directory/test_image.jpg`, `test_directory/test_video.mp4` and `test_directory/test_document.pdf` the test asserts |

## Left out

- The SDK clients. `boto3.client` and `storage.Client` are modelled only as the upload calls made and the replies an oracle gives. The GCS bucket and blob lookups are not calls of the model. Retries, network behaviour and the transfer manager are not modelled.
- Uploaders.GcsUploadFile, Orchestrator.UploadToGcs, WalkProperties.GcsPartShape, WalkProperties.EntryStop and WalkProperties.WalkStopsAtFirstNotFound: `self.gcs.bucket(...)` and `bucket.blob(...)` (file_uploader.py:148, 154) run before the `try` at :156. An exception from either would escape `upload_file` and `upload_files` and end the walk on an error other than NotFound. The model assumes these two lookups never raise. The large-file path of new_methods.py:42 makes the same lookups inside its `try`, so nothing escapes there.
- Uploaders.GcsUploadLargeFile: models the resumable upload as one call. The `consume_next_chunk` loop runs inside the SDK and its per-chunk replies cannot be observed (new_methods.py:45-49).
- Parsing: reading and parsing the JSON config, with its FileNotFoundError and JSONDecodeError raises (file_uploader.py:183-194). The model starts from the parsed `Config`.
- Orchestrator.Init: assumes "cloud_services" and each listed backend's "bucket_name" and "credentials_file" exist; the KeyErrors raised when they are missing are not modelled. A missing "file_types" is modelled (`Config.fileTypes` is an `Option`).
- CSV parsing by `csv.DictReader`. `read_credentials` gets the parsed rows, or "unreadable".
- Orchestrator.Init: does not open the GCS service-account file. Whether a client can be built from a file is given as a set of usable paths in `CredentialStore`.
- The filesystem. `os.path.isdir`, `os.walk`, `os.path.isfile` and `os.path.getsize` are given as a `Listing` of entries in walk order, with a file flag and the content. Each entry carries its path, the `os.path.join(subdir, file)` of file_uploader.py:244, which `Paths.PathJoin` defines.
- All `print` output.
- `S3Uploader.upload_files_single_call` (file_uploader.py:96-121): its own docstring says it is in progress and not to be used.
- The `except boto3.exceptions.S3UploadFailedError` clause (file_uploader.py:90-93): the preceding `except Exception` already catches that error, so the clause can never run.
- The `file_size` and `num_parts` of `upload_large_file` (new_methods.py:7, 15). `file_size` serves only to compute `num_parts`, which nothing uses. `ChunksCount` states the value `num_parts` has.
- `upload_small_file` is called by the patched walk but is not defined in any file. It is modelled as `upload_file`, the single-shot upload.
- The attributes `multipart_threshold`, `multipart_chunksize` and `chunk_size`. The patched methods read them but no file sets them, so they come from `TransferSettings`.
- Orchestrator.Init and Uploaders.S3UploadLargeFile: require a positive `multipart_chunksize`. With zero, the `math.ceil(file_size / self.multipart_chunksize)` of new_methods.py:15 raises ZeroDivisionError right after the create call, and the handler at new_methods.py:33 catches it, so the upload would make the create call alone. The model does not cover that case.
- Paths.Lower: lower-cases ASCII letters only; Python's `lower()` also folds non-ASCII letters.
- Unicode and byte encodings of file names. The `utf-8-sig` decoding of the CSV file is not modelled either.
- Concurrency; the code has none.
- The `directory_path` and `config_file` attributes and `CloudUploader`'s abstract methods. These only store or declare things; there is nothing to prove about them.
