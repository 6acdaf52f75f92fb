/** The ingestion pipeline as functions of the inputs and of the set of
    digests seen so far. Each returns its records together with the new set;
    the methods of class Ingestor are proved equal to them. */
module Pipeline {
  import opened Types
  import opened Text
  import opened Classify

  type Outcome = (seq<Record>, set<Digest>)

  /** process_regular_file: classify, hash, flag and record duplicates, and
      reject JSON-typed content that does not parse. */
  function ProcessFile(env: Env, seen: set<Digest>, name: string, content: Bytes): (out: (Record, set<Digest>))
    ensures out.1 == seen + {env.sha256(content)}
    ensures out.0.duplicate == Some(env.sha256(content) in seen)
    ensures out.0.fileName == name && out.0.hash == Some(env.sha256(content))
    ensures out.0.size == Some(|content|)
    ensures out.0.fileType == Some(DetectFileType(env, name, content).0)
    ensures out.0.mimeType == Some(DetectFileType(env, name, content).1)
    ensures var rejected := out.0.fileType == Some(Json) && !env.jsonValid(content);
            out.0.status == Some(if rejected then Rejected else Validated) &&
            out.0.scanStatus == Some(if rejected then InvalidJson else Clean)
  {
    var (fileType, mimeType) := DetectFileType(env, name, content);
    var fileHash := env.sha256(content);
    var duplicate := fileHash in seen;
    var seen' := if duplicate then seen else seen + {fileHash};
    var record := BaseRecord(name).(
      fileType := Some(fileType), size := Some(|content|), hash := Some(fileHash),
      status := Some(Validated), mimeType := Some(mimeType), duplicate := Some(duplicate),
      scanStatus := Some(Clean));
    if fileType == Json && !env.jsonValid(content) then
      (record.(status := Some(Rejected), scanStatus := Some(InvalidJson)), seen')
    else
      (record, seen')
  }

  /** The digests of a sequence of entries. */
  function HashesOf(env: Env, entries: seq<Entry>): set<Digest>
    decreases |entries|
  {
    if entries == [] then {}
    else
      var n := |entries| - 1;
      HashesOf(env, entries[..n]) + {env.sha256(entries[n].content)}
  }

  /** Running process_regular_file over entries in order, threading the set. */
  function ProcessAll(env: Env, seen: set<Digest>, entries: seq<Entry>): (out: Outcome)
    ensures |out.0| == |entries|
    ensures forall k :: 0 <= k < |entries| ==> out.0[k].fileName == entries[k].name
    ensures seen <= out.1
    decreases |entries|
  {
    if entries == [] then ([], seen)
    else
      var n := |entries| - 1;
      var (records, seen1) := ProcessAll(env, seen, entries[..n]);
      var (record, seen2) := ProcessFile(env, seen1, entries[n].name, entries[n].content);
      (records + [record], seen2)
  }

  /** An archive member that reaches per-file processing: not a directory
      entry and not noise. */
  predicate Kept(member: Entry)
  {
    !EndsWith(member.name, "/") && IsValidZipEntry(member.name, member.content)
  }

  /** The members that reach per-file processing, in archive order. */
  function Accepted(members: seq<Entry>): (kept: seq<Entry>)
    ensures |kept| <= |members|
    decreases |members|
  {
    if members == [] then []
    else
      var n := |members| - 1;
      assert members == members[..n] + [members[n]];
      Accepted(members[..n]) + if Kept(members[n]) then [members[n]] else []
  }

  /** One more member extends the filtered sequence by itself or by nothing. */
  lemma AcceptedSnoc(members: seq<Entry>, member: Entry)
    ensures Accepted(members + [member]) ==
            Accepted(members) + if Kept(member) then [member] else []
  {
  }

  /** One more entry appends its record and continues from its set. */
  lemma ProcessAllSnoc(env: Env, seen: set<Digest>, entries: seq<Entry>, entry: Entry)
    ensures var (records, seen1) := ProcessAll(env, seen, entries);
            var (record, seen2) := ProcessFile(env, seen1, entry.name, entry.content);
            ProcessAll(env, seen, entries + [entry]) == (records + [record], seen2)
  {
  }

  /** One more archive member: processed and appended when kept, skipped
      otherwise. */
  lemma ExpandStep(env: Env, seen: set<Digest>, members: seq<Entry>, j: nat)
    requires j < |members|
    ensures var run := ProcessAll(env, seen, Accepted(members[..j]));
            var member := members[j];
            var step := ProcessFile(env, run.1, member.name, member.content);
            ProcessAll(env, seen, Accepted(members[..j + 1])) ==
              if Kept(member) then (run.0 + [step.0], step.1) else run
  {
    assert members[..j + 1] == members[..j] + [members[j]];
    AcceptedSnoc(members[..j], members[j]);
    if Kept(members[j]) {
      ProcessAllSnoc(env, seen, Accepted(members[..j]), members[j]);
    } else {
      assert Accepted(members[..j]) + [] == Accepted(members[..j]);
    }
  }

  /** The shell filled in for a gated upload or an unreadable archive. */
  function RejectedRecord(name: string): (r: Record)
    ensures r.fileName == name
    ensures r.status == Some(Rejected) && r.scanStatus == Some(NotApplicable)
    ensures r.fileType.None? && r.size.None? && r.hash.None?
    ensures r.mimeType.None? && r.duplicate.None?
  {
    BaseRecord(name).(status := Some(Rejected), scanStatus := Some(NotApplicable))
  }

  /** The record an archive gives itself. */
  function ContainerRecord(env: Env, name: string, content: Bytes): (r: Record)
    ensures r.fileName == name
    ensures r.fileType == Some(Zip) && r.status == Some(Container)
    ensures r.mimeType == Some("application/zip") && r.duplicate == Some(false)
    ensures r.scanStatus == Some(Clean)
    ensures r.hash == Some(env.sha256(content)) && r.size == Some(|content|)
  {
    BaseRecord(name).(
      fileType := Some(Zip), size := Some(|content|), hash := Some(env.sha256(content)),
      status := Some(Container), mimeType := Some("application/zip"), duplicate := Some(false),
      scanStatus := Some(Clean))
  }

  /** Empty and oversized uploads are refused before any processing. */
  predicate Gated(content: Bytes)
  {
    |content| == 0 || |content| > MAX_FILE_SIZE
  }

  predicate IsZipName(name: string)
  {
    EndsWith(Lower(name), ".zip")
  }

  /** The entries of one upload that go through process_regular_file. */
  function ProcessedEntries(env: Env, item: Entry): seq<Entry>
  {
    if Gated(item.content) then []
    else if IsZipName(item.name) then
      match env.openZip(item.content)
      case None => []
      case Some(members) => Accepted(members)
    else [item]
  }

  /** One iteration of the upload loop: the records one upload contributes. */
  function IngestItem(env: Env, seen: set<Digest>, item: Entry): (out: Outcome)
    ensures |out.0| >= 1 && out.0[0].fileName == item.name
    ensures seen <= out.1
  {
    if Gated(item.content) then ([RejectedRecord(item.name)], seen)
    else if IsZipName(item.name) then
      match env.openZip(item.content)
      case None => ([RejectedRecord(item.name)], seen)
      case Some(members) =>
        var (records, seen') := ProcessAll(env, seen, Accepted(members));
        ([ContainerRecord(env, item.name, item.content)] + records, seen')
    else
      var (record, seen') := ProcessFile(env, seen, item.name, item.content);
      ([record], seen')
  }

  /** The entries of a whole batch that go through process_regular_file. */
  function ProcessedBatch(env: Env, items: seq<Entry>): seq<Entry>
    decreases |items|
  {
    if items == [] then []
    else
      var n := |items| - 1;
      ProcessedBatch(env, items[..n]) + ProcessedEntries(env, items[n])
  }

  /** upload_files: every upload in order, results concatenated. */
  function Ingest(env: Env, seen: set<Digest>, items: seq<Entry>): (out: Outcome)
    ensures |out.0| >= |items|
    ensures seen <= out.1
    decreases |items|
  {
    if items == [] then ([], seen)
    else
      var n := |items| - 1;
      var (before, seen1) := Ingest(env, seen, items[..n]);
      var (records, seen2) := IngestItem(env, seen1, items[n]);
      (before + records, seen2)
  }

  /** One more upload appends its records and continues from its set. */
  lemma IngestSnoc(env: Env, seen: set<Digest>, items: seq<Entry>, item: Entry)
    ensures var before := Ingest(env, seen, items);
            var here := IngestItem(env, before.1, item);
            Ingest(env, seen, items + [item]) == (before.0 + here.0, here.1)
  {
  }
}
