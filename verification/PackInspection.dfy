/** The canon-pack preview and the inspection that hands the validated manifest to the installer, step by step. */
module PackInspection {
  import opened Basics
  import opened MemberNames
  import opened PackPreview
  import opened PackAcceptance
  import DuplicateKeys
  import SemverPrecedence
  import T = Text

  datatype Diagnostic = Diagnostic(code: string, path: string)

  datatype Report = Report(valid: bool, diagnostics: seq<Diagnostic>, expandedBytes: nat, ancillaryFiles: nat)

  datatype Inspection = Inspection(
    report: Report, archiveSHA256: string, manifestSHA256: string, manifestJSON: Option<Bytes>, failed: bool)

  class Collector {
    var diagnostics: seq<Diagnostic>

    constructor ()
      ensures diagnostics == []
    {
      diagnostics := [];
    }

    method Add(code: string, path: string)
      modifies this
      ensures diagnostics == old(diagnostics) + [Diagnostic(code, path)]
    {
      diagnostics := diagnostics + [Diagnostic(code, path)];
    }
  }

  /** The ghost manifest position: the member named as the manifest, when every member before `n` is in order. */
  predicate ManifestAmong(files: seq<ZipFile>, n: nat, found: Option<ZipFile>)
    requires n <= |files|
  {
    match found
    case None => forall i :: 0 <= i < n ==> files[i].name != MANIFEST_NAME
    case Some(f) => exists i :: 0 <= i < n && files[i] == f && f.name == MANIFEST_NAME
  }

  predicate FirstOk(files: seq<ZipFile>, n: nat, toLower: string -> string)
    requires n <= |files|
  {
    forall i :: 0 <= i < n ==> MemberOk(files, i, toLower)
  }

  lemma FirstOkNext(files: seq<ZipFile>, n: nat, toLower: string -> string)
    requires n < |files|
    ensures FirstOk(files, n + 1, toLower) <==> FirstOk(files, n, toLower) && MemberOk(files, n, toLower)
  {
    hide MemberOk;
  }

  /** The keys under which the first `n` members were recorded. */
  function Folded(files: seq<ZipFile>, n: nat, toLower: string -> string): set<string>
    requires n <= |files|
  {
    set i | 0 <= i < n :: toLower(files[i].name)
  }

  /** What the tests on member `n` amount to when the earlier members are in order. */
  lemma MemberTests(files: seq<ZipFile>, n: nat, toLower: string -> string)
    requires n < |files|
    ensures var f := files[n];
            MemberOk(files, n, toLower) <==>
              && SafeMemberName(f.name) && toLower(f.name) !in Folded(files, n, toLower)
              && f.regular && !f.executable
              && f.uncompressed <= MAX_EXPANDED_BYTES
              && Expanded(files[..n]) <= MAX_EXPANDED_BYTES - f.uncompressed
              && RatioOk(f)
    ensures Expanded(files[..n + 1]) == Expanded(files[..n]) + files[n].uncompressed
    ensures Folded(files, n + 1, toLower) == Folded(files, n, toLower) + {toLower(files[n].name)}
  {
    hide SafeMemberName, RatioOk;
    assert files[..n + 1][..n] == files[..n];
    assert (forall j :: 0 <= j < n ==> toLower(files[j].name) != toLower(files[n].name)) <==>
           toLower(files[n].name) !in Folded(files, n, toLower) by {
      if toLower(files[n].name) in Folded(files, n, toLower) {
        var j :| 0 <= j < n && toLower(files[j].name) == toLower(files[n].name);
      }
    }
  }

  /** The member loop: no diagnostic is added iff every member is in order; then size and manifest are as found. */
  method CheckMembers(files: seq<ZipFile>, lib: Libraries, c: Collector)
    returns (manifestFile: Option<ZipFile>, expanded: nat)
    modifies c
    ensures old(c.diagnostics) <= c.diagnostics
    ensures c.diagnostics == old(c.diagnostics) <==> MembersOk(files, lib.toLower)
    ensures MembersOk(files, lib.toLower) ==> expanded == Expanded(files)
    ensures ManifestAmong(files, |files|, manifestFile) || !MembersOk(files, lib.toLower)
  {
    hide SafeMemberName, MemberOk, MANIFEST_NAME, Folded, FirstOk, Expanded;
    ghost var before := c.diagnostics;
    var seen: set<string> := {};
    manifestFile, expanded := None, 0;
    var n := 0;
    NothingYet(files, lib.toLower);
    while n < |files|
      invariant n <= |files| && before <= c.diagnostics
      invariant c.diagnostics == before <==> FirstOk(files, n, lib.toLower)
      invariant FirstOk(files, n, lib.toLower) ==>
                  && expanded == Expanded(files[..n]) && seen == Folded(files, n, lib.toLower)
                  && ManifestAmong(files, n, manifestFile)
    {
      var f := files[n];
      FirstOkNext(files, n, lib.toLower);
      MemberTests(files, n, lib.toLower);
      n := n + 1;
      if !SafeMemberName(f.name) {
        c.Add("canon_pack_unsafe_path", f.name);
        continue;
      }
      var key := lib.toLower(f.name);
      if key in seen {
        c.Add("canon_pack_duplicate_member", f.name);
        continue;
      }
      seen := seen + {key};
      if !f.regular {
        c.Add("canon_pack_unsafe_member_type", f.name);
        continue;
      }
      if f.executable {
        c.Add("canon_pack_executable_member", f.name);
      }
      if f.uncompressed > MAX_EXPANDED_BYTES || expanded > MAX_EXPANDED_BYTES - f.uncompressed {
        c.Add("canon_pack_expanded_size_exceeded", f.name);
        continue;
      }
      expanded := expanded + f.uncompressed;
      if f.compressed == 0 {
        if f.uncompressed > 0 {
          c.Add("canon_pack_compression_ratio_exceeded", f.name);
        }
      } else if f.uncompressed > f.compressed * MAX_RATIO % TWO64 {
        c.Add("canon_pack_compression_ratio_exceeded", f.name);
      }
      if f.name == MANIFEST_NAME {
        manifestFile := Some(f);
      }
    }
    assert files[..|files|] == files;
    AllOk(files, lib.toLower);
  }

  lemma NothingYet(files: seq<ZipFile>, toLower: string -> string)
    ensures FirstOk(files, 0, toLower) && Expanded(files[..0]) == 0 && Folded(files, 0, toLower) == {}
  {
  }

  lemma AllOk(files: seq<ZipFile>, toLower: string -> string)
    ensures FirstOk(files, |files|, toLower) <==> MembersOk(files, toLower)
  {
  }

  // ---------- The manifest's file list ----------

  predicate FirstEntriesOk(entries: seq<FileEntry>, n: nat)
    requires n <= |entries|
  {
    EntriesOk(entries[..n])
  }

  lemma EntriesNext(entries: seq<FileEntry>, n: nat)
    requires n < |entries|
    ensures FirstEntriesOk(entries, n + 1) <==>
              FirstEntriesOk(entries, n) && EntryOk(entries[n]) && entries[n].path !in Declared(entries[..n])
    ensures Declared(entries[..n + 1]) == Declared(entries[..n])[entries[n].path := entries[n]]
  {
    hide EntryOk;
    var front := entries[..n];
    assert entries[..n + 1] == front + [entries[n]];
    assert entries[..n + 1][..n] == front;
    DeclaredKeys(front);
    if FirstEntriesOk(entries, n + 1) {
      assert forall i :: 0 <= i < n ==> front[i] == entries[..n + 1][i];
      assert entries[..n + 1][n] == entries[n];
    }
  }

  method CheckRole(f: FileEntry, p: string, c: Collector)
    modifies c
    ensures old(c.diagnostics) <= c.diagnostics
    ensures c.diagnostics == old(c.diagnostics) <==>
              f.complete && Ancillary(f.path) && (f.role, f.mediaType) == Metadata(f.path)
  {
    hide Ancillary, Metadata;
    if !f.complete {
      c.Add("canon_pack_schema_invalid", p);
    }
    if !Ancillary(f.path) {
      c.Add("canon_pack_file_not_allowed", p + ".path");
    } else if (f.role, f.mediaType) != Metadata(f.path) {
      c.Add("canon_pack_file_metadata_invalid", p);
    }
  }

  method CheckContent(f: FileEntry, p: string, declared: map<string, FileEntry>, c: Collector)
    modifies c
    ensures old(c.diagnostics) <= c.diagnostics
    ensures c.diagnostics == old(c.diagnostics) <==>
              && f.size.Some? && 0 <= f.size.value <= MAX_ANCILLARY_BYTES
              && f.path !in declared && ShaText(f.sha256)
  {
    hide ShaText, MAX_ANCILLARY_BYTES;
    if f.size.None? || f.size.value < 0 || f.size.value > MAX_ANCILLARY_BYTES {
      c.Add("canon_pack_schema_invalid", p + ".size_bytes");
    }
    if f.path in declared {
      c.Add("canon_pack_duplicate_file_declaration", p + ".path");
    }
    if !ShaText(f.sha256) {
      c.Add("canon_pack_schema_invalid", p + ".sha256");
    }
  }

  method CheckEntry(f: FileEntry, p: string, declared: map<string, FileEntry>, c: Collector)
    modifies c
    ensures old(c.diagnostics) <= c.diagnostics
    ensures c.diagnostics == old(c.diagnostics) <==> EntryOk(f) && f.path !in declared
  {
    hide Ancillary, Metadata, ShaText, MAX_ANCILLARY_BYTES;
    CheckRole(f, p, c);
    CheckContent(f, p, declared, c);
  }

  method DeclareFiles(entries: seq<FileEntry>, c: Collector) returns (declared: map<string, FileEntry>)
    modifies c
    ensures old(c.diagnostics) <= c.diagnostics
    ensures c.diagnostics == old(c.diagnostics) <==> EntriesOk(entries)
    ensures declared == Declared(entries)
  {
    hide Declared, FirstEntriesOk, EntryOk;
    ghost var before := c.diagnostics;
    declared := map[];
    var n := 0;
    NothingDeclared(entries);
    while n < |entries|
      invariant n <= |entries| && before <= c.diagnostics
      invariant c.diagnostics == before <==> FirstEntriesOk(entries, n)
      invariant declared == Declared(entries[..n])
    {
      var f := entries[n];
      CheckEntry(f, "$.files[" + T.Decimal(n) + "]", declared, c);
      EntriesNext(entries, n);
      declared := declared[f.path := f];
      n := n + 1;
    }
    AllDeclared(entries);
  }

  lemma NothingDeclared(entries: seq<FileEntry>)
    ensures FirstEntriesOk(entries, 0) && Declared(entries[..0]) == map[]
  {
  }

  lemma {:induction false} AllDeclared(entries: seq<FileEntry>)
    ensures FirstEntriesOk(entries, |entries|) <==> EntriesOk(entries)
    ensures Declared(entries[..|entries|]) == Declared(entries)
  {
    assert entries[..|entries|] == entries;
  }

  method CollectActual(files: seq<ZipFile>) returns (actual: map<string, ZipFile>)
    ensures actual == Actual(files)
  {
    hide SafeMemberName, MANIFEST_NAME;
    actual := map[];
    var n := 0;
    while n < |files|
      invariant n <= |files| && actual == Actual(files[..n])
    {
      assert files[..n + 1][..n] == files[..n];
      if SafeMemberName(files[n].name) && files[n].name != MANIFEST_NAME {
        actual := actual[files[n].name := files[n]];
      }
      n := n + 1;
    }
    assert files[..|files|] == files;
  }

  /** The members against the declarations, in any order. */
  method CompareActual(actual: map<string, ZipFile>, declared: map<string, FileEntry>, sha256: Bytes -> string,
                       c: Collector)
    modifies c
    ensures old(c.diagnostics) <= c.diagnostics
    ensures c.diagnostics == old(c.diagnostics) <==>
              forall name :: name in actual ==> Matches(name, actual[name], declared, sha256)
  {
    ghost var before := c.diagnostics;
    var left := actual.Keys;
    while left != {}
      invariant left <= actual.Keys && before <= c.diagnostics
      invariant c.diagnostics == before <==>
                  forall name :: name in actual.Keys - left ==> Matches(name, actual[name], declared, sha256)
    {
      var name :| name in left;
      left := left - {name};
      assert actual.Keys - left == (actual.Keys - (left + {name})) + {name};
      if name !in declared {
        c.Add("canon_pack_unlisted_member", name);
        continue;
      }
      var b := ReadMember(actual[name], MAX_EXPANDED_BYTES);
      if b.None? {
        c.Add("canon_pack_member_read_failed", name);
        continue;
      }
      if declared[name].size != Some(|b.value|) {
        c.Add("canon_pack_file_size_mismatch", name);
      }
      if declared[name].sha256 != sha256(b.value) {
        c.Add("canon_pack_file_checksum_mismatch", name);
      }
    }
  }

  /** The declarations against the members, in any order. */
  method CompareDeclared(actual: map<string, ZipFile>, declared: map<string, FileEntry>, c: Collector)
    modifies c
    ensures old(c.diagnostics) <= c.diagnostics
    ensures c.diagnostics == old(c.diagnostics) <==> forall name :: name in declared ==> name in actual
  {
    ghost var before := c.diagnostics;
    var left := declared.Keys;
    while left != {}
      invariant left <= declared.Keys && before <= c.diagnostics
      invariant c.diagnostics == before <==> forall name :: name in declared.Keys - left ==> name in actual
    {
      var name :| name in left;
      left := left - {name};
      assert declared.Keys - left == (declared.Keys - (left + {name})) + {name};
      if name !in actual {
        c.Add("canon_pack_listed_file_missing", name);
      }
    }
  }

  method ValidateFiles(m: Manifest, files: seq<ZipFile>, sha256: Bytes -> string, c: Collector)
    modifies c
    ensures old(c.diagnostics) <= c.diagnostics
    ensures c.diagnostics == old(c.diagnostics) <==> FilesOk(m, files, sha256)
  {
    hide EntriesOk, Declared, Actual, Matches, SIGNATURE;
    var declared := DeclareFiles(m.files, c);
    if m.signed && SIGNATURE !in declared {
      c.Add("canon_pack_trust_invalid", "$.files");
    }
    var actual := CollectActual(files);
    CompareActual(actual, declared, sha256, c);
    CompareDeclared(actual, declared, c);
  }

  // ---------- Preview and inspection ----------

  /** `finish`, without the sorting of the diagnostics. */
  method Finish(c: Collector, expanded: nat, ancillary: nat) returns (r: Report)
    ensures r == Report(c.diagnostics == [], c.diagnostics, expanded, ancillary)
  {
    r := Report(|c.diagnostics| == 0, c.diagnostics, expanded, ancillary);
  }

  ghost predicate Acceptable(data: Bytes, version: string, lib: Libraries) {
    exists files: seq<ZipFile>, k: nat :: SoundArchive(data, version, lib, files, k)
  }

  /** A sound archive is one that passes every check, and what is read of it is what it holds. */
  lemma SoundIsOk(data: Bytes, version: string, lib: Libraries)
    ensures forall files: seq<ZipFile>, k: nat ::
              SoundArchive(data, version, lib, files, k) <==> ArchiveOk(data, version, lib, files, k)
    ensures forall files: seq<ZipFile>, k: nat :: SoundArchive(data, version, lib, files, k) ==>
              && TotalSize(files) == Expanded(files)
              && ReadMember(files[k], MAX_MANIFEST_BYTES) == files[k].content
  {
    forall files: seq<ZipFile>, k: nat
      ensures SoundArchive(data, version, lib, files, k) <==> ArchiveOk(data, version, lib, files, k)
      ensures SoundArchive(data, version, lib, files, k) ==>
                && TotalSize(files) == Expanded(files)
                && ReadMember(files[k], MAX_MANIFEST_BYTES) == files[k].content
    {
      ArchiveIff(data, version, lib, files, k);
      TotalIs(files);
      hide MembersOk, ManifestOk, SoundMembers, SoundManifest, SoundDeclarations, SameFiles, Expanded, TotalSize;
    }
  }

  /** A report is valid iff the archive meets every requirement, and then carries its exact totals. */
  method PreviewZIP(data: Bytes, version: string, lib: Libraries) returns (r: Report)
    ensures r.valid <==> r.diagnostics == []
    ensures r.valid <==> Acceptable(data, version, lib)
    ensures forall files: seq<ZipFile>, k: nat | SoundArchive(data, version, lib, files, k) ::
              r.expandedBytes == TotalSize(files)
    ensures forall files: seq<ZipFile>, k: nat | SoundArchive(data, version, lib, files, k) ::
              r.ancillaryFiles == |lib.manifest(files[k].content.value).value.files|
  {
    hide MembersOk, FilesOk, DuplicateKeys.OneUniqueValue, MANIFEST_NAME, SoundArchive;
    SoundIsOk(data, version, lib);
    var c := new Collector();
    if |data| > MAX_ARCHIVE_BYTES {
      c.Add("canon_pack_archive_too_large", "");
      r := Finish(c, 0, 0);
      return;
    }
    var zr := lib.unzip(data);
    if zr.None? {
      c.Add("canon_pack_archive_invalid", "");
      r := Finish(c, 0, 0);
      return;
    }
    var files := zr.value;
    if |files| > MAX_MEMBERS {
      c.Add("canon_pack_member_limit_exceeded", "");
      r := Finish(c, 0, 0);
      return;
    }
    var manifestFile, expanded := CheckMembers(files, lib, c);
    if manifestFile.None? {
      c.Add("canon_pack_manifest_missing", MANIFEST_NAME);
      r := Finish(c, expanded, 0);
      return;
    }
    if MembersOk(files, lib.toLower) {
      assert ManifestAmong(files, |files|, manifestFile);
    }
    r := PreviewManifest(data, version, lib, files, manifestFile.value, expanded, c);
  }

  method PreviewManifest(ghost data: Bytes, version: string, lib: Libraries, files: seq<ZipFile>, f: ZipFile,
                         expanded: nat, c: Collector)
    returns (r: Report)
    requires |data| <= MAX_ARCHIVE_BYTES && lib.unzip(data) == Some(files) && |files| <= MAX_MEMBERS
    requires c.diagnostics == [] <==> MembersOk(files, lib.toLower)
    requires MembersOk(files, lib.toLower) ==> expanded == Expanded(files) && ManifestAmong(files, |files|, Some(f))
    modifies c
    ensures r.valid <==> r.diagnostics == []
    ensures r.valid <==> Acceptable(data, version, lib)
    ensures forall files: seq<ZipFile>, k: nat | SoundArchive(data, version, lib, files, k) ::
              r.expandedBytes == TotalSize(files)
    ensures forall files: seq<ZipFile>, k: nat | SoundArchive(data, version, lib, files, k) ::
              r.ancillaryFiles == |lib.manifest(files[k].content.value).value.files|
  {
    hide MembersOk, FilesOk, DuplicateKeys.OneUniqueValue;
    hide MANIFEST_NAME, ManifestAmong, ReadMember, SemverPrecedence.Accepts, SoundArchive;
    SoundIsOk(data, version, lib);
    OnlyManifest(data, version, lib, files, f);
    if f.uncompressed > MAX_MANIFEST_BYTES {
      c.Add("canon_pack_manifest_too_large", MANIFEST_NAME);
      r := Finish(c, expanded, 0);
      assert ReadMember(f, MAX_MANIFEST_BYTES).None? by { TooLarge(f); }
      return;
    }
    var b := ReadMember(f, MAX_MANIFEST_BYTES);
    if b.None? {
      c.Add("canon_pack_manifest_read_failed", MANIFEST_NAME);
      r := Finish(c, expanded, 0);
      return;
    }
    var (tokens, broken) := lib.tokens(b.value);
    var once := DuplicateKeys.RejectDuplicateJSONKeys(tokens, broken);
    if !once.Accepted? {
      c.Add(if once.RepeatedKey? then "canon_pack_json_duplicate_key" else "canon_pack_manifest_json_invalid",
            MANIFEST_NAME);
      r := Finish(c, expanded, 0);
      return;
    }
    var m := lib.manifest(b.value);
    if m.None? {
      c.Add("canon_pack_schema_invalid", "$");
      r := Finish(c, expanded, 0);
      return;
    }
    if m.value.faulty {
      c.Add("canon_pack_schema_invalid", "$");
    }
    var issues := SemverPrecedence.ValidateCompatibility(m.value.compatibility, version);
    AddIssues(issues, c);
    ValidateFiles(m.value, files, lib.sha256, c);
    r := Finish(c, expanded, |m.value.files|);
  }

  function IssueCode(issue: SemverPrecedence.Issue): string {
    match issue
    case RequiredPropertyMissing => "canon_pack_schema_invalid"
    case SchemaUnsupported => "canon_pack_schema_unsupported"
    case InvalidVersion => "canon_pack_schema_invalid"
    case EmptyRange => "canon_pack_compatibility_invalid"
    case CurrentInvalid => "canon_pack_archive_center_version_invalid"
    case Incompatible => "canon_pack_archive_center_incompatible"
  }

  method AddIssues(issues: seq<SemverPrecedence.Issue>, c: Collector)
    modifies c
    ensures old(c.diagnostics) <= c.diagnostics
    ensures c.diagnostics == old(c.diagnostics) <==> issues == []
  {
    for i := 0 to |issues|
      invariant old(c.diagnostics) <= c.diagnostics && |c.diagnostics| == |old(c.diagnostics)| + i
    {
      c.Add(IssueCode(issues[i]), "$.compatibility");
    }
  }

  lemma TooLarge(f: ZipFile)
    requires f.uncompressed > MAX_MANIFEST_BYTES
    ensures ReadMember(f, MAX_MANIFEST_BYTES).None?
  {
  }

  /** The archive is acceptable iff its members are in order and its one manifest member passes. */
  lemma OnlyManifest(data: Bytes, version: string, lib: Libraries, files: seq<ZipFile>, f: ZipFile)
    requires |data| <= MAX_ARCHIVE_BYTES && lib.unzip(data) == Some(files) && |files| <= MAX_MEMBERS
    requires MembersOk(files, lib.toLower) ==> ManifestAmong(files, |files|, Some(f))
    ensures Acceptable(data, version, lib) <==>
              && MembersOk(files, lib.toLower) && ReadMember(f, MAX_MANIFEST_BYTES).Some?
              && ManifestOk(ReadMember(f, MAX_MANIFEST_BYTES).value, files, version, lib)
    ensures forall fs, k: nat :: ArchiveOk(data, version, lib, fs, k) ==> fs == files && files[k] == f
  {
    hide MembersOk, MANIFEST_NAME, ManifestOk, ReadMember, SoundArchive;
    SoundIsOk(data, version, lib);
    forall fs, k: nat | ArchiveOk(data, version, lib, fs, k) ensures fs == files && files[k] == f {
      var i :| 0 <= i < |files| && files[i] == f && f.name == MANIFEST_NAME;
      NamesDistinct(files, lib.toLower, i, k);
    }
    if MembersOk(files, lib.toLower) {
      var i :| 0 <= i < |files| && files[i] == f && f.name == MANIFEST_NAME;
      assert ReadMember(f, MAX_MANIFEST_BYTES).Some?
            && ManifestOk(ReadMember(f, MAX_MANIFEST_BYTES).value, files, version, lib)
        ==> ArchiveOk(data, version, lib, files, i);
    }
  }

  /** The inspection succeeds on every acceptable archive, and hands off exactly the manifest that was validated. */
  method InspectZIP(data: Bytes, version: string, lib: Libraries) returns (r: Inspection)
    ensures r.report.valid <==> Acceptable(data, version, lib)
    ensures r.archiveSHA256 == lib.sha256(data) && !r.failed
    ensures r.manifestJSON.Some? <==> r.report.valid
    ensures forall files: seq<ZipFile>, k: nat | SoundArchive(data, version, lib, files, k) ::
              r.manifestJSON == files[k].content && r.manifestJSON.Some?
              && r.manifestSHA256 == lib.sha256(r.manifestJSON.value)
  {
    hide MembersOk, ManifestOk, ReadMember, MANIFEST_NAME, Expanded, SoundArchive;
    SoundIsOk(data, version, lib);
    var report := PreviewZIP(data, version, lib);
    r := Inspection(report, lib.sha256(data), "", None, false);
    if !report.valid {
      return;
    }
    ghost var files, k :| ArchiveOk(data, version, lib, files, k);
    OneArchive(data, version, lib, files, k);
    var zr := lib.unzip(data);
    var n := 0;
    while n < |zr.value|
      invariant n <= k
    {
      var f := zr.value[n];
      if f.name == MANIFEST_NAME {
        NamesDistinct(files, lib.toLower, n, k);
        var manifest := ReadMember(f, MAX_MANIFEST_BYTES);
        r := r.(manifestSHA256 := lib.sha256(manifest.value), manifestJSON := manifest);
        return;
      }
      n := n + 1;
    }
  }

  lemma OneArchive(data: Bytes, version: string, lib: Libraries, files: seq<ZipFile>, k: nat)
    requires ArchiveOk(data, version, lib, files, k)
    ensures forall fs, j: nat :: ArchiveOk(data, version, lib, fs, j) ==> fs == files && j == k
  {
    hide MembersOk, ManifestOk, ReadMember, MANIFEST_NAME;
    forall fs, j: nat | ArchiveOk(data, version, lib, fs, j) ensures fs == files && j == k {
      NamesDistinct(files, lib.toLower, j, k);
    }
  }
}
