# rustler upload validation and health check, modelled in Dafny

This project models three parts of the rustler file service: its file-type registry, its zip-only upload endpoint and its health check.

- **The file-type registry and its streaming validator** (`src/utils/file_utils.rs`).
  - A `FileType` describes one accepted kind of upload: its name, extensions, content types, signatures ("magic numbers") and size limit.
  - It answers three questions about a candidate:
    - Is the extension allowed? The extension is the text after the last dot, compared ignoring ASCII case.
    - Is the content type allowed? Also compared ignoring ASCII case.
    - Do the first bytes start with one of the signatures? An empty list of signatures passes everything.
  - A `FileValidator` keeps the registered types in a table keyed by name. It starts with ZIP, PNG and JPEG.
  - It validates a multipart field in a fixed order: the type name, then the file name, then its extension, then its content type. Only then does it read the body chunk by chunk. It stops at a read error, at the chunk that pushes the running total past the limit, or at a first chunk without a signature.
- **The zip-only upload endpoint** (`FileService::upload_file` in `src/services/file_service.rs`).
  - It is a second validator, hard-coded for ZIP: a `.zip` suffix after lower-casing, the exact content type `application/zip`, and a 100 MiB running total. It checks no signature.
  - If every check passes, it makes one object-store upload keyed by the original file name. It answers with a status and a JSON body, modelled as a `Response` datatype.
- **The health check** (`src/services/health_service.rs`).
  - A scope (All, S3, Postgres or Redis) selects the liveness probes to run. All runs S3, then PostgreSQL, then Redis, and stops at the first failure.
  - The answer is cached in Redis under the fixed key `health_check_status` for 60 seconds.
  - A cached answer is returned, whatever the scope, before any probe runs. A success is written back. A failure never is.

The body of a multipart field is modelled as a sequence of chunks. Each chunk is either bytes (`seq<bv8>`) or a read error. The stream ends where the sequence ends.

Both chunk loops are `method`s with loop invariants:

- `FileUtils.ReadChunks`, which `FileValidator.ValidateFile` calls;
- `FileService.UploadFile`.

Each loop is proved equal to a closed-form specification built on `Multipart.FirstStop`, the index at which reading stops. The lemmas in `FileUtilsProperties`, `FileServiceProperties` and `HealthServiceProperties` state the source's promises about those specifications.

The registry is a class whose map field is changed by `RegisterFileType`. The Redis keyspace the health check touches is the class `HealthService.HealthCache`. Its fields are a map of values and a map of the TTLs they were written with.

The network is not modelled. Each of the following is a parameter:

- the outcome of each probe;
- whether each Redis connection and command succeeds;
- the object store's reply to the upload;
- the multipart parser's result.

Some behaviours of the code are easy to misread from its names and comments; the model states them as the code has them:

- **Health-cache write failure.** The comment on `perform_health_check` (`src/services/health_service.rs:70`) says the result is cached if successful. A failed cache write after a successful probe does not fall back to the success message: it answers 500 "Failed to cache health check status: …", so caching is not best-effort here (`HealthService.PerformHealthCheck`).
- **The upload endpoint.** `upload_file` does not use `FileValidator`. It hard-codes the ZIP rules, compares the content type exactly and case-sensitively, and checks no signature (`FileServiceProperties.NoSignatureCheck`, `FileServiceProperties.StricterThanRegistryOnHeaders`).
- **`.tar.gz` names.** `validate_extension` takes only the text after the last dot, so `x.tar.gz` is judged as `gz` by every type (`FileUtilsProperties.CompoundExtensionIsLastPart`).
- **Lookup by extension.** `find_file_type_by_extension` returns whichever matching entry the hash map yields first, so the model leaves that choice open (`FileUtils.FileValidator.FindFileTypeByExtension`). In the default table at most one type matches any name (`FileUtilsProperties.DefaultLookupIsUnique`).
- **When the signature is checked.** The comment at `src/utils/file_utils.rs:241` says the check is on the first chunk. The code checks every chunk read while the buffer holds only that chunk. This can only fail on the first chunk (`FileUtilsProperties.SignatureRejectedIff`). An empty body passes, and a first chunk shorter than the signature fails even when the next chunk completes it (`FileUtilsProperties.ShortFirstChunkRejected`).

## Model

| member | source | states |
|---|---|---|
| Text.LowerAscii | src/services/file_service.rs:55 | the lower-cased name equals the original ignoring ASCII case and holds no upper-case ASCII letter |
| Text.LowerAsciiUnique | src/services/file_service.rs:55 | those two properties determine the lower-cased string: any string with both is it |
| Text.EqIgnoreAsciiCaseIff | src/utils/file_utils.rs:77 | comparing ignoring ASCII case holds exactly when the two lower-cased strings are equal |
| Text.NatToDecimal | src/utils/file_utils.rs:235 | the size limit in the 413 message is rendered as decimal digits that denote exactly that number, with no leading zero |
| Multipart.PayloadGrows | src/utils/file_utils.rs:239 | the bytes buffered after fewer chunks are a prefix of the bytes buffered after more |
| Multipart.StopFrom | src/utils/file_utils.rs:225-239 | scanning from a point where the total fits, reading stops at the first read error or the first chunk that pushes the total past the limit; every chunk before the stop was read and fits |
| Multipart.FirstStop | src/utils/file_utils.rs:225-239 | where reading a stream stops: all chunks before it are readable and their bytes fit the limit, and it is the end, a read error, or the chunk that exceeds the limit |
| Multipart.StopFromAtLeast | src/utils/file_utils.rs:225-239 | a readable prefix that fits the limit lies entirely before the stop |
| Multipart.StopFromIs | src/utils/file_utils.rs:225-239 | the stop is the only index with FirstStop's three properties |
| Multipart.FirstStopAtLeast | src/utils/file_utils.rs:225-239 | a readable prefix that fits the limit lies before the stop |
| Multipart.FirstStopIs | src/utils/file_utils.rs:225-239 | an index with the three stop properties is the stop |
| Multipart.FirstStopFullIff | src/services/file_service.rs:87-107 | the whole stream is read exactly when every chunk is readable and the total fits the limit |
| Multipart.FirstStopPrefixClosed | src/services/file_service.rs:87-107 | once reading stops inside a prefix, the chunks after it are never looked at |
| Multipart.OversizeStopsInside | src/services/file_service.rs:90-98 | readable chunks whose bytes exceed the limit make reading stop at one of them, before it is appended |
| Multipart.ReadErrorStops | src/services/file_service.rs:102-105 | a read error after a readable prefix that fits stops reading exactly there |
| FileUtils.ExtensionOf | src/utils/file_utils.rs:74 | the extension is the longest dot-free suffix of the name: the text after the last dot, or the whole name if it has none |
| FileUtils.FileValidator.constructor | src/utils/file_utils.rs:130-136 | a new validator holds exactly ZIP, PNG and JPEG, each keyed by its name |
| FileUtils.FileValidator.RegisterDefaultTypes | src/utils/file_utils.rs:140-170 | registers ZIP (zip, application/zip, 50 4B 03 04, 100 MiB), PNG (png, image/png, the 8-byte PNG signature, 10 MiB) and JPEG (jpg and jpeg, image/jpeg, FF D8 FF E0 or FF D8 FF E1, 10 MiB), in that order |
| FileUtils.FileValidator.RegisterFileType | src/utils/file_utils.rs:173-175 | inserts the type under its name, overwriting any entry of that name; other entries are unchanged; every entry stays keyed by its own name |
| FileUtils.FileValidator.ValidateFile | src/utils/file_utils.rs:189-251 | the result equals the validation specification: type name, file name, extension and content type are checked in order, and then the stream is read; while every entry is keyed by its own name, a signature failure names the requested type |
| FileUtils.FileValidator.FindFileTypeByExtension | src/utils/file_utils.rs:254-258 | returns a registered type whose extension check accepts the argument, and returns None exactly when no registered type accepts it; while every entry is keyed by its own name, the type returned is the entry under its name |
| FileUtils.ReadChunks | src/utils/file_utils.rs:222-250 | the loop's result is the stream verdict: the signature failure, the read error, the oversize, or all of the bytes in order |
| FileUtils.EmptyBufferIffLeadingEmpty | src/utils/file_utils.rs:242 | the buffer still holds only the current chunk exactly when every earlier chunk was empty |
| FileUtils.SignatureRejectedStep | src/utils/file_utils.rs:239-247 | reading one more chunk adds a signature failure exactly when the buffer was empty before it and its bytes carry no signature |
| FileUtils.InvalidFormatNamesType | src/utils/file_utils.rs:243-246 | the signature failure's message names the type whose signatures were tested |
| FileUtilsProperties.ExtensionAfterLastDot | src/utils/file_utils.rs:74 | the extension of `prefix.ext` is `ext` whenever `ext` has no dot |
| FileUtilsProperties.ExtensionOfDotless | src/utils/file_utils.rs:74 | a name without a dot is its own extension |
| FileUtilsProperties.UpperCaseExtensionAccepted | src/utils/file_utils.rs:73-78 | `IMG.PNG` passes the PNG extension check |
| FileUtilsProperties.InnerExtensionIgnored | src/utils/file_utils.rs:73-78 | `img.png.bak` fails the PNG extension check |
| FileUtilsProperties.CompoundExtensionIsLastPart | src/utils/file_utils.rs:73-78 | for every type, `x.tar.gz` passes the extension check exactly when `gz` does |
| FileUtilsProperties.ContentTypeIsCaseInsensitive | src/utils/file_utils.rs:96-100 | the content type is allowed exactly when some allowed type, lower-cased, equals it lower-cased |
| FileUtilsProperties.ContentTypeExamples | src/utils/file_utils.rs:91-93 | ZIP accepts `application/zip` and `Application/ZIP` and rejects `image/png` |
| FileUtilsProperties.MagicEmptyDataAcceptsAll | src/utils/file_utils.rs:112-120 | if empty data passes the signature check (no signatures, or an empty one), every input does |
| FileUtilsProperties.MagicShortDataRejected | src/utils/file_utils.rs:112-120 | with at least one signature, data shorter than every signature fails |
| FileUtilsProperties.MagicSurvivesAppend | src/utils/file_utils.rs:112-120 | data that passes the signature check still passes with more bytes appended |
| FileUtilsProperties.SignatureRejectedIff | src/utils/file_utils.rs:241-247 | the signature check fails before the stop exactly when a first chunk was read within the limit and carries no signature |
| FileUtilsProperties.StreamSucceedsIff | src/utils/file_utils.rs:222-250 | the stream is accepted exactly when every chunk is readable, the total fits the type's limit and the first chunk carries a signature; the result is then the in-order concatenation, no longer than the limit |
| FileUtilsProperties.OversizeStopsStream | src/utils/file_utils.rs:231-237 | readable chunks over the limit give 413 whatever follows, or 415 when the first chunk already failed its signature within the limit |
| FileUtilsProperties.ReadErrorStopsStream | src/utils/file_utils.rs:226-229 | a read error after an accepted prefix gives the chunk-read error, status 500 |
| FileUtilsProperties.ShortFirstChunkRejected | src/utils/file_utils.rs:241-247 | a first chunk shorter than every signature gives 415, even when later chunks would complete a signature |
| FileUtilsProperties.ZipSplitInsideSignatureRejected | src/utils/file_utils.rs:241-247 | for any ZIP body within 100 MiB and any split point inside its 4-byte signature, the two-chunk stream is refused with 415, while the same bytes in one chunk are accepted |
| FileUtilsProperties.ValidationOrder | src/utils/file_utils.rs:194-219 | unknown type 400, then missing name 400, then bad extension 415, then a content type the type does not allow 415 |
| FileUtilsProperties.MissingContentTypeIsEmpty | src/utils/file_utils.rs:213 | a missing content type is judged exactly as the empty one |
| FileUtilsProperties.StreamReadOnlyAfterHeaders | src/utils/file_utils.rs:194-225 | once the header checks pass, the result is the stream verdict; until they pass, the chunks do not affect the result |
| FileUtilsProperties.FirstLettersDiffer | src/utils/file_utils.rs:144-162 | no string equals, ignoring case, two of the built-in extensions zip, png and jpg or jpeg |
| FileUtilsProperties.ZipAccepts | src/utils/file_utils.rs:142-148 | the ZIP type allows exactly the extension `zip`, in any ASCII case |
| FileUtilsProperties.PngAccepts | src/utils/file_utils.rs:151-157 | the PNG type allows exactly the extension `png`, in any ASCII case |
| FileUtilsProperties.JpegAccepts | src/utils/file_utils.rs:160-169 | the JPEG type allows exactly `jpg` and `jpeg`, in any ASCII case |
| FileUtilsProperties.DefaultLookupIsUnique | src/utils/file_utils.rs:254-258 | no file name passes the extension check of two built-in types, so a lookup in the default table has at most one answer |
| FileService.UploadFile | src/services/file_service.rs:41-122 | the handler's response and the upload it issues equal the endpoint's specification: parse, field, name, content type, the chunk loop with its running total, then one store call |
| FileServiceProperties.ResponseShape | src/services/file_service.rs:132-156 | every answer is 200 exactly when it carries the upload report; the report names the stored key and the number of stored bytes; any other answer is an error body under 400, 413, 415 or 500 |
| FileServiceProperties.NoFieldRejected | src/services/file_service.rs:42-51 | no field gives 400 "No file provided", and a parse error gives 400 "Failed to parse multipart data"; nothing is stored in either case |
| FileServiceProperties.UploadIssuedIff | src/services/file_service.rs:82-121 | an upload is issued exactly when name and content type pass, every chunk is readable and the total is at most 100 MiB; it is keyed by the original name and holds exactly the bytes read; the answer reports that size, or 500 if the store failed |
| FileServiceProperties.OversizeRejectedMidStream | src/services/file_service.rs:90-98 | readable chunks over 100 MiB give 413 whatever follows them, and nothing is stored |
| FileServiceProperties.ReadErrorGives500 | src/services/file_service.rs:102-105 | a read error after readable chunks that fit gives 500 with the error's text, and nothing is stored |
| FileServiceProperties.NameCheckedFirst | src/services/file_service.rs:54-80 | a missing name gives 400; a name without the `.zip` suffix gives 415 whatever the content type; an accepted name with a content type other than exactly `application/zip` (missing read as empty) gives 415; in each case nothing is stored and the chunks do not matter |
| FileServiceProperties.ZipSuffixShape | src/services/file_service.rs:55 | a name accepted by the suffix check ends in a dot and three characters that lower-case to `zip` |
| FileServiceProperties.ZipLetters | src/utils/file_utils.rs:142-148 | three characters that lower-case to `zip` contain no dot and pass the registry's ZIP extension rule |
| FileServiceProperties.ZipSuffixPassesZipExtension | src/services/file_service.rs:55 | every name the endpoint accepts also passes the registry's ZIP extension check |
| FileServiceProperties.StricterThanRegistryOnHeaders | src/services/file_service.rs:54-80 | a bare `zip` passes the registry's extension check but not the suffix check; `A.ZIP` passes the suffix check; `Application/Zip` passes the registry's content-type check but not the exact comparison |
| FileServiceProperties.NoSignatureCheck | src/services/file_service.rs:82-109 | one chunk of any bytes up to 100 MiB with an accepted name and content type is stored unchanged, although the registry's ZIP type refuses the same bytes when they lack the ZIP signature |
| HealthService.RunProbes | src/services/health_service.rs:43-67 | the probes run are a prefix of the scope's order; the run passes exactly when every probe in the order passes, and then every probe was run |
| HealthService.RunProbesFailure | src/services/health_service.rs:45-63 | a failed run stops at its first failing probe: every earlier probe passed, and the error is the failing probe's under its service prefix |
| HealthService.CheckHealth | src/services/health_service.rs:43-67 | the scope's probes run in order, stopping at the first failure; the outcome and the probes run equal the probe specification |
| HealthService.HealthCache.Get | src/services/health_service.rs:114-119 | a failed connection gives its error; otherwise the stored value, or none when the key is absent |
| HealthService.HealthCache.SetEx | src/services/health_service.rs:140-149 | a successful write replaces the key's value and records its TTL; a failed one changes nothing and returns the error |
| HealthService.GetCachedHealthCheckStatus | src/services/health_service.rs:111-128 | succeeds exactly when the read succeeds and the fixed key is present, with (200, the cached message) |
| HealthService.CacheHealthCheckStatus | src/services/health_service.rs:136-152 | writes the reply's message under `health_check_status` with a 60-second TTL, or leaves the cache unchanged and returns the error |
| HealthService.PerformHealthCheck | src/services/health_service.rs:77-103 | a cache hit gives (200, cached) without probing or writing; otherwise, a probe failure gives (500, error) and the cache is unchanged; success with a good write gives (200, the scope's message) and caches it for 60 s; success with a failed write gives 500 "Failed to cache health check status: …" and the cache is unchanged |
| HealthServiceProperties.AllScopeStopsAtFirstFailure | src/services/health_service.rs:45-52 | All reports the S3 failure after probing S3 only, the PostgreSQL failure after S3 and PostgreSQL, and the Redis failure after all three |
| HealthServiceProperties.AllHealthyIffEachHealthy | src/services/health_service.rs:43-67 | All passes exactly when every single-service check would pass |
| HealthServiceProperties.SingleScopeProbesOnlyItself | src/services/health_service.rs:53-64 | a single-service scope runs only its own probe and reports its error under its own prefix |
| HealthServiceProperties.SuccessMessagesDistinct | src/services/health_service.rs:24-31 | the four success messages are pairwise different, so a cached message tells which scope wrote it |
| HealthServiceProperties.SecondCheckServedFromCache | src/services/health_service.rs:82-97 | after a successful check, a second check of any scope answers with the first scope's message and runs no probe, even if its own probes would fail |
| HealthServiceProperties.FailureNotCached | src/services/health_service.rs:87-100 | after a failed check (500), the next check finds no cached answer and runs its probes again |

## Left out

- Async execution, Tokio, the shared `Arc<Clients>` and concurrency between requests are not modelled. Each call is sequential.
- The network clients are reduced to success-or-error inputs. This covers `src/clients/s3_client.rs`, `redis_client.rs`, `postgres_client.rs` and `clients.rs`. The Redis probe's own test write is not modelled.
- Server wiring is not modelled: `src/main.rs`, `src/config.rs`, `src/routes/*`, `src/controllers/*` and `src/app_state.rs`.
- `src/error.rs` is not part of this model. Its errors appear as their text.
- Archive detection, zip and tar.gz extraction, path sanitising, temporary files and the `file_cache:` retrieval cache are not modelled. None of them is implemented in the files modelled here.
- Logging is not modelled.
- JSON rendering is not modelled. A response is a status plus a `Body` datatype holding the JSON fields.
- FileService.UploadFile: the chunk error and the store error are carried as their text. The source formats them with `{:?}` (Debug), and that exact rendering is not modelled.
- FileUtils.ReadChunks: the read error is carried as its text, not in its `Display` rendering.
- Text.LowerAscii: only ASCII letters are lower-cased. Rust's `to_lowercase` also lower-cases non-ASCII letters, which is not modelled.
- FileUtils.ValidationError: the allowed extensions and content types are rendered by `Text.DebugList` as quoted, comma-separated lists. Rust's escaping of quotes and backslashes inside them is not modelled.
- Sizes are unbounded naturals. `usize` overflow of the running total cannot occur with the built-in limits or `MAX_FILE_SIZE`, and is not modelled for a type registered with a larger `max_size`, where `total_bytes += chunk.len()` could wrap.
- HealthService.HealthCache: TTL expiry is not modelled. A key stays until it is overwritten, and only the TTL written with it is recorded.
- FileUtils.FileValidator.FindFileTypeByExtension: the hash map's iteration order is not modelled. When several types match, the model leaves open which one is returned.
