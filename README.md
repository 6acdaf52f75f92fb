# File ingestion and type detection, modelled in Dafny

This project models the upload-ingestion pipeline of `main.py`. It covers the
path from an ordered batch of uploads (file name plus bytes) to the ordered
list of result records the upload endpoint returns:

- **Size gate.** Empty uploads and uploads over `MAX_FILE_SIZE` (100 MiB) get a
  single rejected record.
- **Zip dispatch.** A case-insensitive `.zip` suffix routes an upload to
  archive expansion. An archive that opens yields a `container` record for
  itself, followed by one record per member. Directory entries, macOS
  metadata, resource forks and empty members are skipped. An archive that
  does not open yields one rejected record.
- **Type detection** (`detect_file_type`). A `.json` suffix decides alone.
  Otherwise the sniffed MIME type, else the extension guess, else
  `application/octet-stream` is mapped to a tag by a first-match table.
- **Per-file processing** (`process_regular_file`). Content is hashed and
  flagged as a duplicate against the process-wide set `uploaded_hashes`; a
  new digest is added to the set. JSON-typed content that does not parse is
  rejected as `invalid_json`.

Layout:

- `types.dfy` (module `Types`) holds the data model: bytes, the record with
  its optional fields, the tag and status enumerations, `MAX_FILE_SIZE`, and
  `Env`, the bundle of library functions the pipeline consults.
- `text.dfy` (module `Text`) holds the string operations: ASCII lower-casing,
  prefix, suffix and substring tests, and the last `/` segment.
- `classify.dfy` (module `Classify`) holds `detect_file_type` and
  `is_valid_zip_entry`, with the MIME table also written as an ordered rule
  list.
- `pipeline.dfy` (module `Pipeline`) holds the pipeline as pure functions
  that thread the set of seen digests. These are the specification of the
  methods.
- `properties.dfy` (module `Properties`) holds the lemmas: duplicate
  semantics, gating, archive expansion, entry filtering, which digests are
  recorded, and in-order concatenation.
- `ingestor.dfy` (module `Ingestion`) holds class `Ingestor`. Its field
  `uploadedHashes` is `uploaded_hashes`, and its methods are
  `process_regular_file` and the loops of `upload_files`, each proved equal
  to its pipeline function.

The libraries are fields of `Env`, so every result is stated in terms of
them: SHA-256 (`sha256`), libmagic (`sniffMime`, where "" stands for a falsy
answer), `mimetypes.guess_type` (`guessMime`), UTF-8 decoding plus
`json.loads` succeeding (`jsonValid`), and opening a zip together with
listing and reading its members (`openZip`, `None` for `BadZipFile`).

## Model

| member | source | states |
|---|---|---|
| Types.BaseRecord | main.py:49-60 | a fresh record carries the given name and every other field is null |
| Text.Lower | main.py:75 | lower-casing keeps the length and lower-cases each character independently |
| Text.LastSegment | main.py:65 | the result is a suffix of the name containing no `/`, and it is the whole name or is preceded by a `/` (the last element of `split("/")`) |
| Text.LastSegmentOfPath | main.py:65 | for a directory part ending in `/` (or empty) followed by a base name without `/`, the last segment is the base name |
| Classify.ResolveMime | main.py:82-84 | the resolved MIME type is the sniffed one if non-empty, else the extension guess if present and non-empty, else `application/octet-stream`; it is never empty |
| Classify.IsJsonName | main.py:75-78 | the `.json` test on the lower-cased name; JsonNameIgnoresContent states that it alone decides the classification |
| Classify.MimeTag | main.py:86-107 | the MIME-to-tag chain never yields `json` or `zip` |
| Classify.FirstMatchIsFirst | main.py:86-107 | when rule k matches and no earlier rule does, the table's answer is rule k's tag |
| Classify.FirstMatchNone | main.py:107 | when no rule matches, the table's answer is `unknown` |
| Classify.MimeTagIsFirstMatch | main.py:86-107 | the source's if-chain equals the first-match reading of the ordered table pdf, docx, excel, ppt, txt, csv, image, for every MIME string |
| Classify.DetectFileType | main.py:74-107 | a `.json` name (any case) gives (`json`, `application/json`); otherwise the MIME type returned is the resolved one, unchanged; the tag is never `zip` and the MIME type never empty |
| Classify.ClassifiedByFirstMatch | main.py:82-107 | outside the `.json` case, the tag is the first-match table's tag for the returned MIME type |
| Classify.JsonNameIgnoresContent | main.py:75-79 | a `.json` name classifies the same under any content and any library answers |
| Classify.ZipEntryFilter | main.py:62-69 | an entry is kept exactly when its path does not start with `__MACOSX/`, its base name does not start with `._`, and its content is non-empty |
| Classify.IsValidZipEntry | main.py:62-69 | the three rejection rules in source order; ZipEntryFilter characterises it as an if-and-only-if over every member path |
| Pipeline.ProcessFile | main.py:112-140 | `duplicate` is true iff the digest was already in the set; the new set is the old one plus that digest; name, hash, size, type and MIME type are filled from the inputs; status/scan status are rejected/invalid_json exactly when the tag is `json` and the content does not parse, validated/clean otherwise |
| Pipeline.ProcessAll | main.py:197-205 | running the member loop gives one record per entry, with the entry's name, in order, and never removes a digest |
| Pipeline.Accepted | main.py:197-203 | filtering the member list never lengthens it |
| Pipeline.Kept | main.py:198-202 | a member reaches per-file processing when it does not end in `/` and passes is_valid_zip_entry; AcceptedMembers states that exactly these survive |
| Pipeline.ExpandStep | main.py:197-205 | one more member either appends its `process_regular_file` record and the updated set, or leaves the run unchanged when it is a directory entry or noise |
| Pipeline.Gated | main.py:171 | empty or over `MAX_FILE_SIZE`; GatedUpload states what such an upload yields |
| Pipeline.IsZipName | main.py:179-182 | the case-insensitive `.zip` suffix test; UnreadableArchive, OpenedArchive and RegularUpload state the two routes it selects |
| Pipeline.RejectedRecord | main.py:172-175 | the record is named after the upload, rejected / not_applicable, with type, size, hash, MIME type and duplicate null |
| Pipeline.ContainerRecord | main.py:186-194 | the archive's own record: its name, type zip, status container, MIME `application/zip`, not a duplicate, clean, its own hash and size; OpenedArchive places it before the member records |
| Pipeline.IngestItem | main.py:167-218 | every upload contributes at least one record, the first one bearing its name, and never removes a digest |
| Pipeline.Ingest | main.py:164-220 | a batch yields at least one record per upload and never removes a digest |
| Pipeline.IngestSnoc | main.py:165-220 | one more upload appends its own records to the batch's output and continues from the batch's set |
| Properties.SameContentTwice | main.py:116-120 | the same bytes processed twice under any names: the first is a duplicate iff its digest was known, the second always is, and the set grows by that one digest only |
| Properties.ProcessAllAt | main.py:197-205 | the k-th member record is `process_regular_file` of the k-th kept member against the initial set plus the digests of members 0..k-1 |
| Properties.AcceptedAppend | main.py:197 | filtering distributes over concatenation, so archive order is kept |
| Properties.AcceptedMembers | main.py:197-203 | a member survives filtering iff it does not end in `/` and passes `is_valid_zip_entry` |
| Properties.AcceptedNone | main.py:197-203 | if no member is kept, nothing is processed |
| Properties.HashesOfMembers | main.py:116-120 | a digest is among those of an entry list iff some entry has it |
| Properties.HashesOfAppend | main.py:116-120 | the digests of a concatenation are the union of the parts' digests |
| Properties.RunHashes | main.py:118-120 | the member loop adds exactly the digests of the kept members, and removes none |
| Properties.UploadHashes | main.py:171-218 | one upload adds exactly the digests of the entries sent through `process_regular_file`: none when gated or unreadable, the kept members (not the archive) for an archive, the file itself otherwise |
| Properties.BatchHashes | main.py:164-220 | a batch adds exactly the digests of every processed entry and removes none |
| Properties.GatedUpload | main.py:169-177 | an empty or oversized upload yields exactly one record, rejected / not_applicable, with type, size, hash, MIME type and duplicate null; the set is unchanged |
| Properties.UnreadableArchive | main.py:209-215 | a `.zip` that does not open yields exactly one rejected / not_applicable record; the set is unchanged |
| Properties.OpenedArchive | main.py:182-207 | an archive that opens yields its container record (type zip, status container, MIME `application/zip`, not a duplicate, clean, its own hash and size) followed by the member loop's records and set |
| Properties.OpenedArchiveMembers | main.py:182-207 | such an archive yields 1 + (number of kept members) records, the members' names in archive order after the container, and the set gains the members' digests and not the archive's |
| Properties.NoiseOnlyArchive | main.py:197-207 | an archive holding only directories, noise or empty members yields its container record alone and leaves the set unchanged |
| Properties.TwoMemberArchive | main.py:182-207 | an archive with two real members yields three records: the archive, then the two members in order (test_main.py:48-69) |
| Properties.RegularUpload | main.py:217-218 | any other upload yields the single `process_regular_file` record |
| Properties.IngestAppend | main.py:165-220 | a batch's output is the in-order concatenation of its parts' outputs, the second part seeing the digests the first recorded |
| Properties.IngestOne | main.py:165-220 | a batch of one upload is that upload's iteration |
| Properties.DuplicateWithinBatch | main.py:116-120 | two regular uploads with the same bytes in one batch: the second is a duplicate, the first only if already known |
| Properties.DuplicateAcrossRequests | test_main.py:34-46 | the same regular upload in two successive requests: the first is a duplicate iff known before, the second always is |
| Ingestion.Ingestor.constructor | main.py:38 | the ingestor starts from the given set of known digests |
| Ingestion.Ingestor.ProcessRegularFile | main.py:112-140 | returns the record `ProcessFile` describes; the set becomes the old set plus the content's digest, nothing else |
| Ingestion.Ingestor.ProcessMembers | main.py:197-205 | the member loop returns the records, and leaves the set, that `ProcessAll` gives for the kept members |
| Ingestion.Ingestor.UploadFiles | main.py:164-220 | returns the records, and leaves the set, that `Ingest` gives for the batch; at least one record per upload; the set only grows |

## Left out

- The FastAPI application, CORS, the static mount and the HTML routes (main.py:1-32, 145-158) are HTTP plumbing. `await file.read()` (main.py:168) is I/O. An upload is modelled as a name plus its bytes.
- `uploaded_at` and `utc_now` (main.py:43-44, 57) read the wall clock and are not modelled.
- `size_kb` is `round(len / 1024, 2)`, a float (main.py:124, 188). The record keeps the byte length instead.
- The internals of SHA-256, libmagic, `mimetypes`, UTF-8 decoding with `json.loads`, and `zipfile` are not modelled. They are the fields of `Env`.
- Zip member reads are total. In the source, a `BadZipFile` raised while reading a member, after the container record was appended, mutates that same record to rejected and appends it a second time (main.py:195, 201, 209-214). The model does not capture this aliasing.
- Exceptions from zipfile other than `BadZipFile` propagate out of the request in the source and are not modelled.
- Text.Lower: models Python's `str.lower()` on ASCII letters only. The suffixes tested (`.json`, `.zip`) are ASCII, so the outcome of both tests is the same.
- `MAX_FILE_SIZE` and the noise prefixes `__MACOSX/` and `._` are constants, as in the code (main.py:37, 63, 65).
- Concurrency: `uploaded_hashes` is shared, unsynchronised state across requests. The model treats requests as running one after another.
- Ingestion.Ingestor.ProcessMembers: the member loop, written inline in `upload_files` in the source, is a separate method here so that each loop carries its own invariant.
- app.js, login.js and signup.js are browser UI with no ingestion logic and are not part of this model.
