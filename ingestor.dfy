/** The stateful side of the pipeline: the process-wide set of seen digests
    (uploaded_hashes) and the two procedures that update it,
    process_regular_file and the loop of upload_files. */
module Ingestion {
  import opened Types
  import opened Text
  import opened Classify
  import opened Pipeline
  import opened Properties

  class Ingestor {
    /** The libraries the pipeline consults. */
    const env: Env
    /** Digests of every content processed so far; never shrinks. */
    var uploadedHashes: set<Digest>

    constructor (env: Env, hashes: set<Digest>)
      ensures this.env == env && uploadedHashes == hashes
    {
      this.env := env;
      uploadedHashes := hashes;
    }

    /** Classifies and fingerprints one file, flags it as a duplicate when its
        digest was already known and records the digest otherwise. */
    method ProcessRegularFile(name: string, content: Bytes) returns (record: Record)
      modifies this
      ensures (record, uploadedHashes) == ProcessFile(env, old(uploadedHashes), name, content)
      ensures record.duplicate == Some(env.sha256(content) in old(uploadedHashes))
      ensures uploadedHashes == old(uploadedHashes) + {env.sha256(content)}
    {
      record := BaseRecord(name);

      var (fileType, mimeType) := DetectFileType(env, name, content);
      var fileHash := env.sha256(content);

      var duplicate := fileHash in uploadedHashes;
      if !duplicate {
        uploadedHashes := uploadedHashes + {fileHash};
      }

      record := record.(
        fileType := Some(fileType), size := Some(|content|), hash := Some(fileHash),
        status := Some(Validated), mimeType := Some(mimeType), duplicate := Some(duplicate),
        scanStatus := Some(Clean));

      if fileType == Json {
        if !env.jsonValid(content) {
          record := record.(status := Some(Rejected), scanStatus := Some(InvalidJson));
        }
      }
    }

    /** The member loop of upload_files: skips directory entries and noise,
        and processes the rest in archive order. */
    method ProcessMembers(members: seq<Entry>) returns (records: seq<Record>)
      modifies this
      ensures (records, uploadedHashes) == ProcessAll(env, old(uploadedHashes), Accepted(members))
    {
      records := [];
      ghost var seen := uploadedHashes;
      var j := 0;
      assert members[..0] == [];
      while j < |members|
        invariant 0 <= j <= |members|
        invariant (records, uploadedHashes) == ProcessAll(env, seen, Accepted(members[..j]))
      {
        var inner := members[j];
        ExpandStep(env, seen, members, j);
        if !EndsWith(inner.name, "/") && IsValidZipEntry(inner.name, inner.content) {
          var innerRecord := ProcessRegularFile(inner.name, inner.content);
          records := records + [innerRecord];
        }
        j := j + 1;
      }
      assert members[..|members|] == members;
    }

    /** Handles every upload in order and returns all records: a rejected
        record for an empty or oversized upload, the archive's own record
        followed by its accepted members for a `.zip` that opens, a rejected
        record for one that does not, one processed record otherwise. */
    method UploadFiles(files: seq<Entry>) returns (results: seq<Record>)
      modifies this
      ensures (results, uploadedHashes) == Ingest(env, old(uploadedHashes), files)
      ensures |results| >= |files|
      ensures old(uploadedHashes) <= uploadedHashes
    {
      results := [];
      ghost var seen0 := uploadedHashes;
      var i := 0;
      assert files[..0] == [];
      while i < |files|
        invariant 0 <= i <= |files|
        invariant (results, uploadedHashes) == Ingest(env, seen0, files[..i])
      {
        var file := files[i];
        assert files[..i + 1] == files[..i] + [file];
        IngestSnoc(env, seen0, files[..i], file);
        ghost var before, seen := results, uploadedHashes;
        ghost var out := IngestItem(env, seen, file);
        var content := file.content;
        var record := BaseRecord(file.name);

        if |content| == 0 || |content| > MAX_FILE_SIZE {
          GatedUpload(env, uploadedHashes, file);
          record := record.(status := Some(Rejected), scanStatus := Some(NotApplicable));
          results := results + [record];
        } else if EndsWith(Lower(file.name), ".zip") {
          match env.openZip(content)
          case None =>
            UnreadableArchive(env, uploadedHashes, file);
            record := record.(status := Some(Rejected), scanStatus := Some(NotApplicable));
            results := results + [record];
          case Some(members) =>
            OpenedArchive(env, uploadedHashes, file, members);
            record := record.(
              fileType := Some(Zip), size := Some(|content|), hash := Some(env.sha256(content)),
              status := Some(Container), mimeType := Some("application/zip"),
              duplicate := Some(false), scanStatus := Some(Clean));
            results := results + [record];

            var memberRecords := ProcessMembers(members);
            results := results + memberRecords;
            assert results == before + out.0 by {
              assert (before + [record]) + memberRecords == before + ([record] + memberRecords);
            }
        } else {
          RegularUpload(env, uploadedHashes, file);
          var fileRecord := ProcessRegularFile(file.name, content);
          results := results + [fileRecord];
        }
        assert results == before + out.0 && uploadedHashes == out.1;
        assert (results, uploadedHashes) == Ingest(env, seen0, files[..i + 1]);

        i := i + 1;
      }
      assert files[..|files|] == files;
    }
  }
}
