/** The canon-pack preview: limits on the archive, and the correspondence of members with the manifest. */
module PackPreview {
  import opened Basics
  import opened MemberNames
  import DuplicateKeys
  import SemverPrecedence

  newtype Byte = n: int | 0 <= n < 256

  type Bytes = seq<Byte>

  const MANIFEST_NAME := "canon-pack-manifest.json"
  const LICENSE := "notices/LICENSE.txt"
  const NOTICE := "notices/NOTICE.txt"
  const SIGNATURE := "signatures/manifest.sig"
  const MAX_ARCHIVE_BYTES := 16 * 1024 * 1024
  const MAX_MANIFEST_BYTES := 4 * 1024 * 1024
  const MAX_EXPANDED_BYTES := 8 * 1024 * 1024
  const MAX_ANCILLARY_BYTES := 1024 * 1024
  const MAX_MEMBERS := 16
  const MAX_RATIO := 100
  const TWO64 := 0x1_0000_0000_0000_0000

  /** A central-directory entry; `content` is what reading it yields, if it can be read. */
  datatype ZipFile = ZipFile(
    name: string, regular: bool, executable: bool, uncompressed: nat, compressed: nat, content: Option<Bytes>)

  /** One entry of the manifest's `files`; `complete` when it is an object with all required keys. */
  datatype FileEntry = FileEntry(
    complete: bool, path: string, role: string, mediaType: string, size: Option<int>, sha256: string)

  /** The parts of a manifest that matter here; `faulty` when one of the other validators complains. */
  datatype Manifest = Manifest(
    files: seq<FileEntry>, signed: bool, compatibility: SemverPrecedence.Compatibility, faulty: bool)

  /** The libraries the preview calls: ZIP directory, tokenizer, JSON decoder, SHA-256 and lower-casing. */
  datatype Libraries = Libraries(
    unzip: Bytes -> Option<seq<ZipFile>>,
    tokens: Bytes -> (seq<DuplicateKeys.Token>, bool),
    manifest: Bytes -> Option<Manifest>,
    sha256: Bytes -> string,
    toLower: string -> string)

  // ---------- What the preview requires ----------

  /** `readMember`. */
  function ReadMember(f: ZipFile, limit: nat): Option<Bytes> {
    if f.content.Some? && |f.content.value| <= limit && |f.content.value| == f.uncompressed then f.content else None
  }

  function Expanded(files: seq<ZipFile>): nat {
    if files == [] then 0 else Expanded(files[..|files| - 1]) + files[|files| - 1].uncompressed
  }

  /** The compression-ratio test, whose product wraps at 64 bits. */
  predicate RatioOk(f: ZipFile) {
    if f.compressed == 0 then f.uncompressed == 0 else f.uncompressed <= f.compressed * MAX_RATIO % TWO64
  }

  predicate MemberOk(files: seq<ZipFile>, i: nat, toLower: string -> string)
    requires i < |files|
  {
    && SafeMemberName(files[i].name)
    && (forall j :: 0 <= j < i ==> toLower(files[j].name) != toLower(files[i].name))
    && files[i].regular && !files[i].executable
    && Expanded(files[..i + 1]) <= MAX_EXPANDED_BYTES
    && RatioOk(files[i])
  }

  predicate MembersOk(files: seq<ZipFile>, toLower: string -> string) {
    forall i :: 0 <= i < |files| ==> MemberOk(files, i, toLower)
  }

  predicate ShaText(s: string) {
    |s| == 64 && forall c :: c in s ==> '0' <= c <= '9' || 'a' <= c <= 'f'
  }

  predicate Ancillary(name: string) {
    name == LICENSE || name == NOTICE || name == SIGNATURE
  }

  /** The role and media type an ancillary path must declare. */
  function Metadata(path: string): (string, string)
    requires Ancillary(path)
  {
    if path == LICENSE then ("license_notice", "text/plain; charset=utf-8")
    else if path == NOTICE then ("attribution_notice", "text/plain; charset=utf-8")
    else ("manifest_signature", "application/octet-stream")
  }

  predicate EntryOk(e: FileEntry) {
    && e.complete && Ancillary(e.path) && (e.role, e.mediaType) == Metadata(e.path)
    && e.size.Some? && 0 <= e.size.value <= MAX_ANCILLARY_BYTES
    && ShaText(e.sha256)
  }

  /** The declared files by path; a later entry replaces an earlier one. */
  function Declared(entries: seq<FileEntry>): map<string, FileEntry> {
    if entries == [] then map[]
    else Declared(entries[..|entries| - 1])[entries[|entries| - 1].path := entries[|entries| - 1]]
  }

  /** The members other than the manifest by name; a later member replaces an earlier one. */
  function Actual(files: seq<ZipFile>): map<string, ZipFile> {
    if files == [] then map[]
    else
      var f := files[|files| - 1];
      var before := Actual(files[..|files| - 1]);
      if SafeMemberName(f.name) && f.name != MANIFEST_NAME then before[f.name := f] else before
  }

  /** A member is declared, can be read, and has the declared size and hash. */
  predicate Matches(name: string, f: ZipFile, declared: map<string, FileEntry>, sha256: Bytes -> string) {
    && name in declared
    && var b := ReadMember(f, MAX_EXPANDED_BYTES);
    && b.Some? && declared[name].size == Some(|b.value|) && declared[name].sha256 == sha256(b.value)
  }

  predicate EntriesOk(entries: seq<FileEntry>) {
    && (forall i :: 0 <= i < |entries| ==> EntryOk(entries[i]))
    && forall i, j :: 0 <= i < j < |entries| ==> entries[i].path != entries[j].path
  }

  /** Members and declarations match in both directions. */
  predicate AllMatch(actual: map<string, ZipFile>, declared: map<string, FileEntry>, sha256: Bytes -> string) {
    && (forall name :: name in actual ==> Matches(name, actual[name], declared, sha256))
    && forall name :: name in declared ==> name in actual
  }

  predicate FilesOk(m: Manifest, files: seq<ZipFile>, sha256: Bytes -> string) {
    && EntriesOk(m.files)
    && (m.signed ==> SIGNATURE in Declared(m.files))
    && AllMatch(Actual(files), Declared(m.files), sha256)
  }

  /** The manifest bytes that pass every check on them, the running version's among them. */
  ghost predicate ManifestOk(b: Bytes, files: seq<ZipFile>, version: string, lib: Libraries) {
    && !lib.tokens(b).1 && DuplicateKeys.OneUniqueValue(lib.tokens(b).0)
    && lib.manifest(b).Some? && !lib.manifest(b).value.faulty
    && SemverPrecedence.Accepts(lib.manifest(b).value.compatibility, version)
    && FilesOk(lib.manifest(b).value, files, lib.sha256)
  }

  /** What an archive must satisfy, with member `k` its manifest. */
  ghost predicate ArchiveOk(data: Bytes, version: string, lib: Libraries, files: seq<ZipFile>, k: nat) {
    && |data| <= MAX_ARCHIVE_BYTES && lib.unzip(data) == Some(files) && |files| <= MAX_MEMBERS
    && MembersOk(files, lib.toLower)
    && k < |files| && files[k].name == MANIFEST_NAME
    && ReadMember(files[k], MAX_MANIFEST_BYTES).Some?
    && ManifestOk(ReadMember(files[k], MAX_MANIFEST_BYTES).value, files, version, lib)
  }

  // ---------- Facts about the specification ----------

  lemma {:induction false} DeclaredKeys(entries: seq<FileEntry>)
    ensures forall name :: name in Declared(entries) <==> exists i :: 0 <= i < |entries| && entries[i].path == name
    ensures forall name :: name in Declared(entries) ==>
          Declared(entries)[name] in entries && Declared(entries)[name].path == name
  {
    if entries != [] {
      var front, last := entries[..|entries| - 1], entries[|entries| - 1];
      DeclaredKeys(front);
      assert entries == front + [last];
      forall name | name in Declared(front) ensures exists i :: 0 <= i < |entries| && entries[i].path == name {
        var i :| 0 <= i < |front| && front[i].path == name;
        assert entries[i].path == name;
      }
      assert entries[|entries| - 1].path == last.path;
      forall i | 0 <= i < |entries| ensures entries[i].path in Declared(entries) {
        if i < |front| {
          assert front[i].path in Declared(front);
        }
      }
    }
  }

  lemma {:induction false} ActualKeys(files: seq<ZipFile>)
    ensures forall name :: name in Actual(files) ==>
              && SafeMemberName(name) && name != MANIFEST_NAME
              && Actual(files)[name] in files && Actual(files)[name].name == name
    ensures forall i :: 0 <= i < |files| && SafeMemberName(files[i].name) && files[i].name != MANIFEST_NAME ==>
              files[i].name in Actual(files)
  {
    hide SafeMemberName, MANIFEST_NAME;
    if files != [] {
      ActualKeys(files[..|files| - 1]);
      assert files == files[..|files| - 1] + [files[|files| - 1]];
    }
  }

  lemma {:induction false} ExpandedGrows(files: seq<ZipFile>, i: nat)
    requires i <= |files|
    ensures Expanded(files[..i]) <= Expanded(files)
  {
    if i < |files| {
      ExpandedGrows(files[..|files| - 1], i);
      assert files[..|files| - 1][..i] == files[..i];
    } else {
      assert files[..i] == files;
    }
  }

  lemma NamesDistinct(files: seq<ZipFile>, toLower: string -> string, i: nat, j: nat)
    requires MembersOk(files, toLower) && i < |files| && j < |files| && toLower(files[i].name) == toLower(files[j].name)
    ensures i == j
  {
    assert MemberOk(files, i, toLower) && MemberOk(files, j, toLower);
  }

  /** The 64-bit product never lets a member expand more than a hundredfold. */
  lemma RatioBound(f: ZipFile)
    requires RatioOk(f)
    ensures f.uncompressed <= MAX_RATIO * f.compressed
  {
    var p := f.compressed * MAX_RATIO;
    assert p % TWO64 <= p;
  }

  lemma MemberNamesOk(data: Bytes, version: string, lib: Libraries, files: seq<ZipFile>, k: nat, i: nat)
    requires ArchiveOk(data, version, lib, files, k) && i < |files|
    ensures i != k ==> Ancillary(files[i].name)
    ensures i == k <==> files[i].name == MANIFEST_NAME
  {
    hide SafeMemberName, RatioOk, Expanded, DuplicateKeys.OneUniqueValue, Declared;
    hide Actual, MANIFEST_NAME, LICENSE, NOTICE, SIGNATURE;
    var m := lib.manifest(ReadMember(files[k], MAX_MANIFEST_BYTES).value).value;
    if files[i].name == MANIFEST_NAME {
      NamesDistinct(files, lib.toLower, i, k);
    } else {
      ActualKeys(files);
      DeclaredKeys(m.files);
      assert MemberOk(files, i, lib.toLower);
      var e := Declared(m.files)[files[i].name];
      assert e in m.files && EntryOk(e);
    }
  }

  /** Among the declared files, the one a member corresponds to. */
  predicate Corresponds(e: FileEntry, f: ZipFile, sha256: Bytes -> string) {
    && e.path == f.name && f.content.Some?
    && e.size == Some(|f.content.value|) && f.uncompressed == |f.content.value|
    && e.sha256 == sha256(f.content.value)
  }

  /** Every member but the manifest corresponds to exactly one declared file. */
  lemma MemberDeclared(data: Bytes, version: string, lib: Libraries, files: seq<ZipFile>, k: nat, i: nat)
    returns (d: nat)
    requires ArchiveOk(data, version, lib, files, k) && i < |files| && i != k
    ensures var entries := lib.manifest(ReadMember(files[k], MAX_MANIFEST_BYTES).value).value.files;
            && d < |entries| && Corresponds(entries[d], files[i], lib.sha256)
            && forall x :: 0 <= x < |entries| && entries[x].path == files[i].name ==> x == d
  {
    hide SafeMemberName, EntriesOk, Declared, Actual, MANIFEST_NAME, MemberOk, MAX_MANIFEST_BYTES, MAX_EXPANDED_BYTES;
    var m := lib.manifest(ReadMember(files[k], MAX_MANIFEST_BYTES).value).value;
    MemberNamesOk(data, version, lib, files, k, i);
    ActualIs(files, lib.toLower, i);
    assert Matches(files[i].name, files[i], Declared(m.files), lib.sha256);
    d := DeclaredAt(m.files, files[i].name);
  }

  lemma {:induction false} ActualIs(files: seq<ZipFile>, toLower: string -> string, i: nat)
    requires MembersOk(files, toLower) && i < |files| && files[i].name != MANIFEST_NAME
    ensures files[i].name in Actual(files) && Actual(files)[files[i].name] == files[i]
  {
    hide SafeMemberName, Expanded, RatioOk, Actual, MANIFEST_NAME;
    assert MemberOk(files, i, toLower);
    ActualKeys(files);
    var j :| 0 <= j < |files| && files[j] == Actual(files)[files[i].name];
    NamesDistinct(files, toLower, i, j);
  }

  lemma {:induction false} DeclaredAt(entries: seq<FileEntry>, name: string) returns (d: nat)
    requires EntriesOk(entries) && name in Declared(entries)
    ensures d < |entries| && entries[d] == Declared(entries)[name] && entries[d].path == name
    ensures forall x :: 0 <= x < |entries| && entries[x].path == name ==> x == d
  {
    hide Declared, EntryOk;
    DeclaredKeys(entries);
    d :| 0 <= d < |entries| && entries[d] == Declared(entries)[name];
  }

  /** Every declared file is a member other than the manifest. */
  lemma DeclaredPresent(data: Bytes, version: string, lib: Libraries, files: seq<ZipFile>, k: nat, d: nat)
    returns (i: nat)
    requires ArchiveOk(data, version, lib, files, k)
    requires d < |lib.manifest(ReadMember(files[k], MAX_MANIFEST_BYTES).value).value.files|
    ensures var entries := lib.manifest(ReadMember(files[k], MAX_MANIFEST_BYTES).value).value.files;
            && i < |files| && i != k && files[i].name == entries[d].path
            && forall x :: 0 <= x < |files| && files[x].name == entries[d].path ==> x == i
  {
    hide SafeMemberName, RatioOk, Expanded, DuplicateKeys.OneUniqueValue, Declared;
    hide Actual, MANIFEST_NAME, LICENSE, NOTICE, SIGNATURE;
    hide EntriesOk, Matches;
    var entries := lib.manifest(ReadMember(files[k], MAX_MANIFEST_BYTES).value).value.files;
    DeclaredKeys(entries);
    ActualKeys(files);
    var name := entries[d].path;
    assert name in Declared(entries);
    var x :| 0 <= x < |files| && files[x] == Actual(files)[name];
    i := x;
    forall x | 0 <= x < |files| && files[x].name == entries[d].path ensures x == i {
      NamesDistinct(files, lib.toLower, i, x);
    }
  }

  /** An accepted archive holds the manifest and at most the three ancillary files. */
  lemma FewMembers(data: Bytes, version: string, lib: Libraries, files: seq<ZipFile>, k: nat)
    requires ArchiveOk(data, version, lib, files, k)
    ensures |files| <= 4
  {
    hide ArchiveOk;
    var names := seq(|files|, i requires 0 <= i < |files| => files[i].name);
    forall i, j | 0 <= i < j < |names| ensures names[i] != names[j] {
      assert MembersOk(files, lib.toLower) by { Members(data, version, lib, files, k); }
      if names[i] == names[j] {
        NamesDistinct(files, lib.toLower, i, j);
      }
    }
    DistinctSize(names);
    var allowed := {MANIFEST_NAME, LICENSE, NOTICE, SIGNATURE};
    forall x | x in Elements(names) ensures x in allowed {
      var i :| 0 <= i < |names| && names[i] == x;
      MemberNamesOk(data, version, lib, files, k, i);
    }
    SubsetSize(Elements(names), allowed);
  }

  lemma Members(data: Bytes, version: string, lib: Libraries, files: seq<ZipFile>, k: nat)
    requires ArchiveOk(data, version, lib, files, k)
    ensures MembersOk(files, lib.toLower) && k < |files|
  {
  }

  lemma {:induction false} SubsetSize<T>(a: set<T>, b: set<T>)
    requires a <= b
    ensures |a| <= |b|
  {
    if a != {} {
      var x :| x in a;
      SubsetSize(a - {x}, b - {x});
    }
  }

  /** The limits an accepted archive keeps: names distinct ignoring case, total size, expansion. */
  lemma {:induction false} LimitsKept(data: Bytes, version: string, lib: Libraries, files: seq<ZipFile>, k: nat)
    requires ArchiveOk(data, version, lib, files, k)
    ensures forall i, j :: 0 <= i < j < |files| ==> lib.toLower(files[i].name) != lib.toLower(files[j].name)
    ensures Expanded(files) <= MAX_EXPANDED_BYTES
    ensures forall i :: 0 <= i < |files| ==> files[i].uncompressed <= MAX_RATIO * files[i].compressed
    ensures forall i :: 0 <= i < |files| ==> SafeMemberName(files[i].name) && files[i].regular && !files[i].executable
  {
    hide SafeMemberName, RatioOk, Expanded, ArchiveOk;
    Members(data, version, lib, files, k);
    assert files[..|files|] == files;
    assert MemberOk(files, |files| - 1, lib.toLower);
    forall i | 0 <= i < |files| ensures files[i].uncompressed <= MAX_RATIO * files[i].compressed {
      assert MemberOk(files, i, lib.toLower);
      RatioBound(files[i]);
    }
    forall i, j | 0 <= i < j < |files| ensures lib.toLower(files[i].name) != lib.toLower(files[j].name) {
      assert MemberOk(files, j, lib.toLower);
    }
    forall i | 0 <= i < |files|
      ensures SafeMemberName(files[i].name) && files[i].regular && !files[i].executable
    {
      assert MemberOk(files, i, lib.toLower);
    }
  }
}
