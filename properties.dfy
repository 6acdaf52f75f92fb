/** What the pipeline promises: duplicate semantics, gating, archive
    expansion, entry filtering and in-order concatenation. */
module Properties {
  import opened Types
  import opened Pipeline

  /** Processing the same bytes twice, under any names: the second record is
      a duplicate and the set does not grow again; the first is a duplicate
      only if the digest was already known. */
  lemma SameContentTwice(env: Env, seen: set<Digest>, name1: string, name2: string, content: Bytes)
    ensures var (first, seen1) := ProcessFile(env, seen, name1, content);
            var (second, seen2) := ProcessFile(env, seen1, name2, content);
            && first.duplicate == Some(env.sha256(content) in seen)
            && second.duplicate == Some(true)
            && seen2 == seen1 == seen + {env.sha256(content)}
  {
  }

  /** The k-th record of a run is what process_regular_file makes of the k-th
      entry against the digests known before the run plus those of entries
      0..k-1. In particular its duplicate flag says whether its digest was
      among those. */
  lemma {:induction false} ProcessAllAt(env: Env, seen: set<Digest>, entries: seq<Entry>, k: nat)
    requires k < |entries|
    ensures ProcessAll(env, seen, entries).0[k] ==
            ProcessFile(env, seen + HashesOf(env, entries[..k]), entries[k].name, entries[k].content).0
    ensures ProcessAll(env, seen, entries).0[k].duplicate ==
            Some(env.sha256(entries[k].content) in seen + HashesOf(env, entries[..k]))
  {
    var n := |entries| - 1;
    var front := entries[..n];
    var seen1 := ProcessAll(env, seen, front).1;
    assert ProcessAll(env, seen, entries).0 ==
           ProcessAll(env, seen, front).0 + [ProcessFile(env, seen1, entries[n].name, entries[n].content).0];
    if k < n {
      assert front[..k] == entries[..k];
      ProcessAllAt(env, seen, front, k);
    } else {
      assert entries[..k] == front;
      RunHashes(env, seen, front);
    }
  }

  /** Filtering keeps archive order: it distributes over concatenation. */
  lemma {:induction false} AcceptedAppend(a: seq<Entry>, b: seq<Entry>)
    ensures Accepted(a + b) == Accepted(a) + Accepted(b)
    decreases |b|
  {
    if b != [] {
      var n := |b| - 1;
      assert (a + b)[..|a + b| - 1] == a + b[..n];
      AcceptedAppend(a, b[..n]);
    } else {
      assert a + b == a;
    }
  }

  /** Exactly the kept members survive filtering. */
  lemma {:induction false} AcceptedMembers(members: seq<Entry>)
    ensures forall e :: e in Accepted(members) <==> e in members && Kept(e)
    decreases |members|
  {
    if members != [] {
      var n := |members| - 1;
      AcceptedMembers(members[..n]);
      assert members == members[..n] + [members[n]];
    }
  }

  /** Members none of which survives filtering leave nothing to process. */
  lemma {:induction false} AcceptedNone(members: seq<Entry>)
    requires forall m :: m in members ==> !Kept(m)
    ensures Accepted(members) == []
    decreases |members|
  {
    AcceptedMembers(members);
    if Accepted(members) != [] {
      assert Accepted(members)[0] in Accepted(members);
    }
  }

  /** A digest is in HashesOf exactly when some entry has it. */
  lemma {:induction false} HashesOfMembers(env: Env, entries: seq<Entry>, d: Digest)
    ensures d in HashesOf(env, entries) <==>
            exists k :: 0 <= k < |entries| && env.sha256(entries[k].content) == d
    decreases |entries|
  {
    if entries != [] {
      var n := |entries| - 1;
      HashesOfMembers(env, entries[..n], d);
      if exists k :: 0 <= k < n && env.sha256(entries[..n][k].content) == d {
        var k :| 0 <= k < n && env.sha256(entries[..n][k].content) == d;
        assert entries[k] == entries[..n][k];
      }
      if exists k :: 0 <= k < |entries| && env.sha256(entries[k].content) == d {
        var k :| 0 <= k < |entries| && env.sha256(entries[k].content) == d;
        if k < n {
          assert entries[..n][k] == entries[k];
        }
      }
    }
  }

  lemma {:induction false} HashesOfAppend(env: Env, a: seq<Entry>, b: seq<Entry>)
    ensures HashesOf(env, a + b) == HashesOf(env, a) + HashesOf(env, b)
    decreases |b|
  {
    if b == [] {
      assert a + b == a;
    } else {
      var n := |b| - 1;
      assert (a + b)[..|a + b| - 1] == a + b[..n];
      HashesOfAppend(env, a, b[..n]);
    }
  }

  /** A run of process_regular_file adds exactly the digests of its entries. */
  lemma {:induction false} RunHashes(env: Env, seen: set<Digest>, entries: seq<Entry>)
    ensures ProcessAll(env, seen, entries).1 == seen + HashesOf(env, entries)
    decreases |entries|
  {
    if entries != [] {
      RunHashes(env, seen, entries[..|entries| - 1]);
    }
  }

  /** One upload adds to the set exactly the digests of the entries it sends
      through process_regular_file: nothing for a gated upload or an
      unreadable archive, the accepted members (not the archive itself) for
      an archive, the upload itself otherwise. */
  lemma UploadHashes(env: Env, seen: set<Digest>, item: Entry)
    ensures IngestItem(env, seen, item).1 == seen + HashesOf(env, ProcessedEntries(env, item))
  {
    if Gated(item.content) {
    } else if IsZipName(item.name) {
      if env.openZip(item.content).Some? {
        RunHashes(env, seen, Accepted(env.openZip(item.content).value));
      }
    } else {
      assert [item][..0] == [];
    }
  }

  /** A batch adds to the set exactly the digests of the entries processed,
      and removes nothing. */
  lemma {:induction false} BatchHashes(env: Env, seen: set<Digest>, items: seq<Entry>)
    ensures Ingest(env, seen, items).1 == seen + HashesOf(env, ProcessedBatch(env, items))
    decreases |items|
  {
    if items != [] {
      var n := |items| - 1;
      BatchHashes(env, seen, items[..n]);
      UploadHashes(env, Ingest(env, seen, items[..n]).1, items[n]);
      HashesOfAppend(env, ProcessedBatch(env, items[..n]), ProcessedEntries(env, items[n]));
    }
  }

  /** An empty or oversized upload yields one rejected record with nothing
      but its name filled in, and the set is unchanged. */
  lemma GatedUpload(env: Env, seen: set<Digest>, item: Entry)
    requires |item.content| == 0 || |item.content| > MAX_FILE_SIZE
    ensures var (records, seen') := IngestItem(env, seen, item);
            && |records| == 1 && seen' == seen
            && records[0].fileName == item.name
            && records[0].status == Some(Rejected)
            && records[0].scanStatus == Some(NotApplicable)
            && records[0].fileType.None? && records[0].size.None? && records[0].hash.None?
            && records[0].mimeType.None? && records[0].duplicate.None?
  {
  }

  /** An archive that cannot be opened yields one rejected record and no
      member is attempted. */
  lemma UnreadableArchive(env: Env, seen: set<Digest>, item: Entry)
    requires !Gated(item.content) && IsZipName(item.name)
    requires env.openZip(item.content).None?
    ensures IngestItem(env, seen, item) == ([RejectedRecord(item.name)], seen)
    ensures RejectedRecord(item.name).status == Some(Rejected)
    ensures RejectedRecord(item.name).scanStatus == Some(NotApplicable)
  {
  }

  /** An archive that opens yields its own container record followed by the
      records of its accepted members. The container record is never a
      duplicate. */
  lemma OpenedArchive(env: Env, seen: set<Digest>, item: Entry, members: seq<Entry>)
    requires !Gated(item.content) && IsZipName(item.name)
    requires env.openZip(item.content) == Some(members)
    ensures var run := ProcessAll(env, seen, Accepted(members));
            IngestItem(env, seen, item) == ([ContainerRecord(env, item.name, item.content)] + run.0, run.1)
    ensures var self := ContainerRecord(env, item.name, item.content);
            && self.fileName == item.name
            && self.fileType == Some(Zip) && self.status == Some(Container)
            && self.mimeType == Some("application/zip") && self.duplicate == Some(false)
            && self.scanStatus == Some(Clean) && self.hash == Some(env.sha256(item.content))
            && self.size == Some(|item.content|)
  {
  }

  /** One record per accepted member, in archive order, after the container
      record; the set gains the members' digests and not the archive's own. */
  lemma OpenedArchiveMembers(env: Env, seen: set<Digest>, item: Entry, members: seq<Entry>)
    requires !Gated(item.content) && IsZipName(item.name)
    requires env.openZip(item.content) == Some(members)
    ensures |IngestItem(env, seen, item).0| == 1 + |Accepted(members)|
    ensures forall k :: 0 <= k < |Accepted(members)| ==>
              IngestItem(env, seen, item).0[k + 1].fileName == Accepted(members)[k].name
    ensures IngestItem(env, seen, item).1 == seen + HashesOf(env, Accepted(members))
  {
    var kept := Accepted(members);
    var run := ProcessAll(env, seen, kept);
    var self := ContainerRecord(env, item.name, item.content);
    OpenedArchive(env, seen, item, members);
    RunHashes(env, seen, kept);
    assert forall k :: 0 <= k < |kept| ==> ([self] + run.0)[k + 1] == run.0[k];
  }

  /** An archive whose every member is a directory, noise or empty yields
      exactly its container record. */
  lemma NoiseOnlyArchive(env: Env, seen: set<Digest>, item: Entry, members: seq<Entry>)
    requires !Gated(item.content) && IsZipName(item.name)
    requires env.openZip(item.content) == Some(members)
    requires forall m :: m in members ==> !Kept(m)
    ensures IngestItem(env, seen, item) == ([ContainerRecord(env, item.name, item.content)], seen)
  {
    var kept := Accepted(members);
    AcceptedNone(members);
    assert ProcessAll(env, seen, kept) == ([], seen);
    assert [ContainerRecord(env, item.name, item.content)] + [] == [ContainerRecord(env, item.name, item.content)];
  }

  /** A well-formed archive with two real members yields three records: the
      archive, then the two members in order. */
  lemma TwoMemberArchive(env: Env, seen: set<Digest>, item: Entry, m1: Entry, m2: Entry)
    requires !Gated(item.content) && IsZipName(item.name)
    requires env.openZip(item.content) == Some([m1, m2])
    requires Kept(m1) && Kept(m2)
    ensures var records := IngestItem(env, seen, item).0;
            |records| == 3 && records[0].fileName == item.name &&
            records[1].fileName == m1.name && records[2].fileName == m2.name
  {
    assert Accepted([m1, m2]) == [m1, m2] by {
      assert [m1, m2][..1] == [m1];
      assert [m1][..0] == [];
    }
  }

  /** Any other upload yields the single record process_regular_file makes. */
  lemma RegularUpload(env: Env, seen: set<Digest>, item: Entry)
    requires !Gated(item.content) && !IsZipName(item.name)
    ensures IngestItem(env, seen, item) == (
      [ProcessFile(env, seen, item.name, item.content).0],
      ProcessFile(env, seen, item.name, item.content).1)
  {
  }

  /** Regrouping a concatenation; kept apart so that the induction step of
      IngestAppend stays within the solver's budget. */
  lemma ConcatAssoc(x: seq<Record>, y: seq<Record>, z: seq<Record>)
    ensures (x + y) + z == x + (y + z)
  {
  }

  /** The output of a batch is the in-order concatenation of the outputs of
      its parts, the second part seeing the digests the first recorded. */
  lemma {:induction false} IngestAppend(env: Env, seen: set<Digest>, a: seq<Entry>, b: seq<Entry>)
    ensures Ingest(env, seen, a + b).0 ==
            Ingest(env, seen, a).0 + Ingest(env, Ingest(env, seen, a).1, b).0
    ensures Ingest(env, seen, a + b).1 == Ingest(env, Ingest(env, seen, a).1, b).1
    decreases |b|
  {
    var seen1 := Ingest(env, seen, a).1;
    if b == [] {
      assert a + b == a;
      assert Ingest(env, seen1, b) == ([], seen1);
      assert Ingest(env, seen, a).0 + [] == Ingest(env, seen, a).0;
    } else {
      var n := |b| - 1;
      var front, last := b[..n], b[n];
      var first := Ingest(env, seen, a).0;
      var mid := Ingest(env, seen1, front);
      var tail := IngestItem(env, mid.1, last);
      assert Ingest(env, seen, a + b) == ((first + mid.0) + tail.0, tail.1) by {
        assert a + b == (a + front) + [last];
        IngestAppend(env, seen, a, front);
        IngestSnoc(env, seen, a + front, last);
      }
      assert Ingest(env, seen1, b) == (mid.0 + tail.0, tail.1) by {
        assert b == front + [last];
        IngestSnoc(env, seen1, front, last);
      }
      ConcatAssoc(first, mid.0, tail.0);
    }
  }

  /** A batch of one upload is that upload's iteration. */
  lemma IngestOne(env: Env, seen: set<Digest>, item: Entry)
    ensures Ingest(env, seen, [item]) == IngestItem(env, seen, item)
  {
    assert [item][..0] == [];
    assert [] + IngestItem(env, seen, item).0 == IngestItem(env, seen, item).0;
  }

  /** Two regular uploads with the same bytes in one batch: the second is a
      duplicate, the first only if its digest was known before. */
  lemma DuplicateWithinBatch(env: Env, seen: set<Digest>, a: Entry, b: Entry)
    requires !Gated(a.content) && !IsZipName(a.name) && !IsZipName(b.name)
    requires a.content == b.content
    ensures var records := Ingest(env, seen, [a, b]).0;
            |records| == 2 &&
            records[0].duplicate == Some(env.sha256(a.content) in seen) &&
            records[1].duplicate == Some(true)
  {
    IngestAppend(env, seen, [a], [b]);
    assert [a] + [b] == [a, b];
    IngestOne(env, seen, a);
    IngestOne(env, Ingest(env, seen, [a]).1, b);
  }

  /** Uploading the same regular file in two successive requests: the second
      request reports it as a duplicate. */
  lemma DuplicateAcrossRequests(env: Env, seen: set<Digest>, item: Entry)
    requires !Gated(item.content) && !IsZipName(item.name)
    ensures var (first, seen1) := Ingest(env, seen, [item]);
            var (second, _) := Ingest(env, seen1, [item]);
            |first| == |second| == 1 &&
            first[0].duplicate == Some(env.sha256(item.content) in seen) &&
            second[0].duplicate == Some(true)
  {
  }
}
