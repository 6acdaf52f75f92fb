/** Data model of the upload-ingestion pipeline: uploads, result records and
    the foreign libraries the pipeline consults. */
module Types {

  newtype byte = x: int | 0 <= x < 256

  type Bytes = seq<byte>

  /** A content fingerprint (the hex digest SHA-256 produces). */
  type Digest = string

  datatype Option<T> = None | Some(value: T)

  /** Largest accepted upload, in bytes (100 MiB). */
  const MAX_FILE_SIZE: nat := 100 * 1024 * 1024

  /** One logical file: a top-level upload or an archive member. */
  datatype Entry = Entry(name: string, content: Bytes)

  datatype FileType = Json | Pdf | Docx | Excel | Ppt | Txt | Csv | Image | Zip | Unknown

  datatype Status = Validated | Rejected | Container

  datatype ScanStatus = Clean | InvalidJson | NotApplicable

  /** The result record. A field the handling branch never fills stays `None`
      (the source's null). `size` holds the byte length of the content. */
  datatype Record = Record(
    fileName: string,
    fileType: Option<FileType>,
    size: Option<nat>,
    hash: Option<Digest>,
    status: Option<Status>,
    mimeType: Option<string>,
    duplicate: Option<bool>,
    scanStatus: Option<ScanStatus>)

  /** The libraries the pipeline calls, as uninterpreted total functions. */
  datatype Env = Env(
    /** hashlib.sha256(content).hexdigest() */
    sha256: Bytes -> Digest,
    /** libmagic's MIME guess from the content; "" when it finds nothing */
    sniffMime: Bytes -> string,
    /** mimetypes.guess_type(name)[0] */
    guessMime: string -> Option<string>,
    /** json.loads(content.decode("utf-8")) raises nothing */
    jsonValid: Bytes -> bool,
    /** zipfile.ZipFile(content): None when it raises BadZipFile, otherwise
        every name of namelist() in order, paired with read(name) */
    openZip: Bytes -> Option<seq<Entry>>)

  /** The empty shell every record starts from: only the name is filled in. */
  function BaseRecord(name: string): (r: Record)
    ensures r.fileName == name
    ensures r.fileType.None? && r.size.None? && r.hash.None? && r.status.None?
    ensures r.mimeType.None? && r.duplicate.None? && r.scanStatus.None?
  {
    Record(name, None, None, None, None, None, None, None)
  }
}
