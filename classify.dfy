/** Type classification (detect_file_type) and the archive entry filter
    (is_valid_zip_entry). */
module Classify {
  import opened Types
  import opened Text

  const JSON_MIME := "application/json"
  const OCTET_STREAM := "application/octet-stream"
  const MACOSX_PREFIX := "__MACOSX/"
  const RESOURCE_FORK_PREFIX := "._"

  /** Names whose lower-cased form ends in `.json` are JSON by extension. */
  predicate IsJsonName(name: string)
  {
    EndsWith(Lower(name), ".json")
  }

  /** Python's `detected or guessed or "application/octet-stream"`, where the
      empty string and None are both false. */
  function ResolveMime(sniffed: string, guessed: Option<string>): (mime: string)
    ensures mime != ""
    ensures sniffed != "" ==> mime == sniffed
    ensures sniffed == "" && guessed.Some? && guessed.value != "" ==> mime == guessed.value
    ensures sniffed == "" && (guessed.None? || guessed.value == "") ==> mime == OCTET_STREAM
  {
    if sniffed != "" then sniffed
    else if guessed.Some? && guessed.value != "" then guessed.value
    else OCTET_STREAM
  }

  /** The MIME-to-tag chain of tests, in the order the source writes them. */
  function MimeTag(mime: string): (tag: FileType)
    ensures tag != Json && tag != Zip
  {
    if mime == "application/pdf" then Pdf
    else if Contains(mime, "wordprocessingml") then Docx
    else if Contains(mime, "spreadsheetml") then Excel
    else if Contains(mime, "presentationml") then Ppt
    else if mime == "text/plain" then Txt
    else if mime == "text/csv" then Csv
    else if StartsWith(mime, "image/") then Image
    else Unknown
  }

  /** The same policy as data: an ordered table of (test, tag) rules. */
  datatype MimeTest = Exactly(text: string) | Mentions(text: string) | Prefix(text: string)

  predicate Matches(test: MimeTest, mime: string)
  {
    match test
    case Exactly(t) => mime == t
    case Mentions(t) => Contains(mime, t)
    case Prefix(t) => StartsWith(mime, t)
  }

  const MIME_RULES: seq<(MimeTest, FileType)> := [
    (Exactly("application/pdf"), Pdf),
    (Mentions("wordprocessingml"), Docx),
    (Mentions("spreadsheetml"), Excel),
    (Mentions("presentationml"), Ppt),
    (Exactly("text/plain"), Txt),
    (Exactly("text/csv"), Csv),
    (Prefix("image/"), Image)
  ]

  /** The tag of the first rule whose test matches, or Unknown. */
  function FirstMatch(rules: seq<(MimeTest, FileType)>, mime: string): FileType
  {
    if rules == [] then Unknown
    else if Matches(rules[0].0, mime) then rules[0].1
    else FirstMatch(rules[1..], mime)
  }

  /** A rule that matches, with no earlier rule matching, decides the tag. */
  lemma {:induction false} FirstMatchIsFirst(rules: seq<(MimeTest, FileType)>, mime: string, k: nat)
    requires k < |rules| && Matches(rules[k].0, mime)
    requires forall j :: 0 <= j < k ==> !Matches(rules[j].0, mime)
    ensures FirstMatch(rules, mime) == rules[k].1
  {
    if k > 0 {
      assert !Matches(rules[0].0, mime);
      forall j | 0 <= j < k - 1
        ensures !Matches(rules[1..][j].0, mime)
      {
        assert rules[1..][j] == rules[j + 1];
      }
      FirstMatchIsFirst(rules[1..], mime, k - 1);
    }
  }

  /** When no rule matches, the tag is Unknown. */
  lemma {:induction false} FirstMatchNone(rules: seq<(MimeTest, FileType)>, mime: string)
    requires forall k :: 0 <= k < |rules| ==> !Matches(rules[k].0, mime)
    ensures FirstMatch(rules, mime) == Unknown
  {
    if rules != [] {
      assert !Matches(rules[0].0, mime);
      forall j | 0 <= j < |rules| - 1
        ensures !Matches(rules[1..][j].0, mime)
      {
        assert rules[1..][j] == rules[j + 1];
      }
      FirstMatchNone(rules[1..], mime);
    }
  }

  /** The source's if-chain is the first-match reading of MIME_RULES. */
  lemma MimeTagIsFirstMatch(mime: string)
    ensures MimeTag(mime) == FirstMatch(MIME_RULES, mime)
  {
    var rules := MIME_RULES;
    var k := match MimeTag(mime)
      case Pdf => 0 case Docx => 1 case Excel => 2 case Ppt => 3
      case Txt => 4 case Csv => 5 case Image => 6 case _ => 7;
    assert forall j :: 0 <= j < k ==> !Matches(rules[j].0, mime);
    if k < 7 {
      FirstMatchIsFirst(rules, mime, k);
    } else {
      FirstMatchNone(rules, mime);
    }
  }

  /** detect_file_type: the `.json` extension decides alone; otherwise the
      resolved MIME type is returned unchanged. Classification never yields
      the archive tag. */
  function DetectFileType(env: Env, name: string, content: Bytes): (r: (FileType, string))
    ensures IsJsonName(name) ==> r == (Json, JSON_MIME)
    ensures !IsJsonName(name) ==> r.1 == ResolveMime(env.sniffMime(content), env.guessMime(name))
    ensures r.0 != Zip && r.1 != ""
  {
    if IsJsonName(name) then (Json, JSON_MIME)
    else
      var mime := ResolveMime(env.sniffMime(content), env.guessMime(name));
      (MimeTag(mime), mime)
  }

  /** Outside the `.json` case, the tag is that of the first rule of
      MIME_RULES matching the resolved MIME type, Unknown if none does. */
  lemma ClassifiedByFirstMatch(env: Env, name: string, content: Bytes)
    requires !IsJsonName(name)
    ensures DetectFileType(env, name, content).0 == FirstMatch(MIME_RULES, DetectFileType(env, name, content).1)
  {
    MimeTagIsFirstMatch(DetectFileType(env, name, content).1);
  }

  /** A `.json` name is classified without looking at the content or at any
      of the libraries. */
  lemma JsonNameIgnoresContent(env1: Env, env2: Env, name: string, c1: Bytes, c2: Bytes)
    requires IsJsonName(name)
    ensures DetectFileType(env1, name, c1) == DetectFileType(env2, name, c2) == (Json, JSON_MIME)
  {
  }

  /** is_valid_zip_entry: false for macOS metadata, resource-fork files and
      empty members. */
  predicate IsValidZipEntry(name: string, content: Bytes)
  {
    if StartsWith(name, MACOSX_PREFIX) then false
    else if StartsWith(LastSegment(name), RESOURCE_FORK_PREFIX) then false
    else if |content| == 0 then false
    else true
  }

  /** For a member path written as directory part plus base name, the entry is
      kept exactly when it is outside `__MACOSX/`, its base name does not
      start with `._`, and it is not empty. */
  lemma ZipEntryFilter(dir: string, base: string, content: Bytes)
    requires dir == [] || dir[|dir| - 1] == '/'
    requires '/' !in base
    ensures IsValidZipEntry(dir + base, content) <==>
              !StartsWith(dir + base, "__MACOSX/") && !StartsWith(base, "._") && |content| > 0
  {
    LastSegmentOfPath(dir, base);
  }
}
