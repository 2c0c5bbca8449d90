/** Exactly which archives the canon-pack preview accepts, in terms of members and declarations alone. */
module PackAcceptance {
  import opened Basics
  import opened MemberNames
  import opened PackPreview
  import DuplicateKeys
  import SemverPrecedence
  import T = Text

  /** A relative slash path of plain elements, a regular file, and expanded at most a hundredfold. */
  predicate SoundMember(f: ZipFile) {
    && (f.name == "." || PlainElements(f.name))
    && '\0' !in f.name && '\\' !in f.name && !(|f.name| >= 2 && f.name[1] == ':')
    && f.regular && !f.executable
    && f.uncompressed <= 100 * f.compressed % 0x1_0000_0000_0000_0000
  }

  function TotalSize(files: seq<ZipFile>): nat {
    if files == [] then 0 else files[0].uncompressed + TotalSize(files[1..])
  }

  /** One of the three ancillary files, with role and media type of its path, a size up to a mebibyte, and a hash. */
  predicate SoundDeclaration(e: FileEntry) {
    && e.complete
    && (e.path, e.role, e.mediaType) in {
         ("notices/LICENSE.txt", "license_notice", "text/plain; charset=utf-8"),
         ("notices/NOTICE.txt", "attribution_notice", "text/plain; charset=utf-8"),
         ("signatures/manifest.sig", "manifest_signature", "application/octet-stream")}
    && e.size.Some? && 0 <= e.size.value <= 1048576
    && |e.sha256| == 64 && forall c :: c in e.sha256 ==> c in "0123456789abcdef"
  }

  /** One of the declarations has the member's name, size and hash. */
  predicate DeclaredBy(entries: seq<FileEntry>, f: ZipFile, sha256: Bytes -> string) {
    exists d :: 0 <= d < |entries| && Corresponds(entries[d], f, sha256)
  }

  predicate PresentIn(files: seq<ZipFile>, k: nat, path: string) {
    exists i :: 0 <= i < |files| && i != k && files[i].name == path
  }

  /** Members and declarations are the same files: each member but the manifest is declared with its size and hash. */
  predicate SameFiles(entries: seq<FileEntry>, files: seq<ZipFile>, k: nat, sha256: Bytes -> string)
    requires k < |files|
  {
    && (forall i :: 0 <= i < |files| && i != k ==> DeclaredBy(entries, files[i], sha256))
    && forall d :: 0 <= d < |entries| ==> PresentIn(files, k, entries[d].path)
  }

  predicate SoundDeclarations(m: Manifest) {
    && (forall d :: 0 <= d < |m.files| ==> SoundDeclaration(m.files[d]))
    && (forall d, e :: 0 <= d < e < |m.files| ==> m.files[d].path != m.files[e].path)
    && (m.signed ==> exists d :: 0 <= d < |m.files| && m.files[d].path == "signatures/manifest.sig")
  }

  predicate SoundMembers(files: seq<ZipFile>, toLower: string -> string) {
    && (forall i :: 0 <= i < |files| ==> SoundMember(files[i]))
    && (forall i, j :: 0 <= i < j < |files| ==> toLower(files[i].name) != toLower(files[j].name))
    && TotalSize(files) <= 8388608
  }

  /** The manifest is one JSON value without repeated keys, and accepts the running version. */
  ghost predicate SoundManifest(b: Bytes, version: string, lib: Libraries) {
    && !lib.tokens(b).1 && DuplicateKeys.OneUniqueValue(lib.tokens(b).0)
    && lib.manifest(b).Some? && !lib.manifest(b).value.faulty
    && SemverPrecedence.Accepts(lib.manifest(b).value.compatibility, version)
  }

  /** An archive with its members and the position of its manifest, as the installer may rely on it. */
  ghost predicate SoundArchive(data: Bytes, version: string, lib: Libraries, files: seq<ZipFile>, k: nat) {
    && |data| <= 16777216 && lib.unzip(data) == Some(files) && |files| <= 16
    && SoundMembers(files, lib.toLower)
    && k < |files| && files[k].name == "canon-pack-manifest.json"
    && files[k].content.Some? && |files[k].content.value| == files[k].uncompressed <= 4194304
    && SoundManifest(files[k].content.value, version, lib)
    && SoundDeclarations(lib.manifest(files[k].content.value).value)
    && SameFiles(lib.manifest(files[k].content.value).value.files, files, k, lib.sha256)
  }

  // ---------- Members ----------

  lemma {:induction false} TotalIs(files: seq<ZipFile>)
    ensures TotalSize(files) == Expanded(files)
  {
    if files != [] {
      TotalIs(files[1..]);
      ExpandedFirst(files);
    }
  }

  lemma {:induction false} ExpandedFirst(files: seq<ZipFile>)
    requires files != []
    ensures Expanded(files) == files[0].uncompressed + Expanded(files[1..])
  {
    if |files| > 1 {
      ExpandedFirst(files[..|files| - 1]);
      assert files[..|files| - 1][1..] == files[1..][..|files[1..]| - 1];
    } else {
      assert files[1..] == [] && files[..0] == [];
    }
  }

  lemma RatioIs(f: ZipFile)
    ensures RatioOk(f) <==> f.uncompressed <= 100 * f.compressed % 0x1_0000_0000_0000_0000
  {
  }

  lemma SoundMemberIff(f: ZipFile)
    ensures SoundMember(f) <==> SafeMemberName(f.name) && f.regular && !f.executable && RatioOk(f)
  {
    hide SafeMemberName, PlainElements, RatioOk;
    SafeMemberNameIff(f.name);
    RatioIs(f);
  }

  lemma {:induction false} SoundMembersIff(files: seq<ZipFile>, toLower: string -> string)
    ensures SoundMembers(files, toLower) <==> MembersOk(files, toLower)
  {
    hide SafeMemberName, SoundMember, RatioOk, Expanded, TotalSize;
    TotalIs(files);
    assert files[..|files|] == files;
    forall i | 0 <= i < |files|
      ensures SoundMember(files[i]) <==> SafeMemberName(files[i].name) && files[i].regular && !files[i].executable
                                         && RatioOk(files[i])
      ensures Expanded(files[..i + 1]) <= Expanded(files)
    {
      SoundMemberIff(files[i]);
      ExpandedGrows(files, i + 1);
    }
    if MembersOk(files, toLower) {
      forall i | 0 <= i < |files| ensures SoundMember(files[i]) {
        assert MemberOk(files, i, toLower);
      }
      forall i, j | 0 <= i < j < |files| ensures toLower(files[i].name) != toLower(files[j].name) {
        assert MemberOk(files, j, toLower);
      }
      if files == [] {
        NothingExpanded();
      } else {
        assert MemberOk(files, |files| - 1, toLower);
      }
    }
  }

  lemma NothingExpanded()
    ensures Expanded([]) == 0
  {
  }

  // ---------- Declarations ----------

  lemma EntryIs(e: FileEntry)
    ensures EntryOk(e) <==> SoundDeclaration(e)
  {
    ShaIs(e.sha256);
    hide ShaText;
    AncillaryIs(e.path, e.role, e.mediaType);
    hide Ancillary, Metadata;
  }

  lemma ShaIs(s: string)
    ensures ShaText(s) <==> |s| == 64 && forall c :: c in s ==> c in "0123456789abcdef"
  {
  }

  lemma AncillaryIs(path: string, role: string, mediaType: string)
    ensures Ancillary(path) && (role, mediaType) == Metadata(path) <==>
            (path, role, mediaType) in {
              ("notices/LICENSE.txt", "license_notice", "text/plain; charset=utf-8"),
              ("notices/NOTICE.txt", "attribution_notice", "text/plain; charset=utf-8"),
              ("signatures/manifest.sig", "manifest_signature", "application/octet-stream")}
  {
    assert LICENSE == "notices/LICENSE.txt" && NOTICE == "notices/NOTICE.txt" && SIGNATURE == "signatures/manifest.sig";
    assert LICENSE[8] != NOTICE[8] && LICENSE[0] != SIGNATURE[0] && NOTICE[0] != SIGNATURE[0];
  }

  lemma {:induction false} DeclarationsIff(m: Manifest)
    ensures SoundDeclarations(m) <==> EntriesOk(m.files) && (m.signed ==> SIGNATURE in Declared(m.files))
  {
    hide EntryOk, SoundDeclaration, Declared, SIGNATURE;
    SignatureIs();
    DeclaredKeys(m.files);
    forall d | 0 <= d < |m.files| ensures EntryOk(m.files[d]) <==> SoundDeclaration(m.files[d]) {
      EntryIs(m.files[d]);
    }
  }

  lemma SignatureIs()
    ensures SIGNATURE == "signatures/manifest.sig"
  {
  }

  // ---------- Members against declarations ----------

  /** Members in order and sound declarations match in both directions iff they are the same files. */
  lemma {:induction false} SameFilesIff(m: Manifest, files: seq<ZipFile>, k: nat, lib: Libraries)
    requires MembersOk(files, lib.toLower) && k < |files| && files[k].name == MANIFEST_NAME && EntriesOk(m.files)
    ensures SameFiles(m.files, files, k, lib.sha256) <==>
              AllMatch(Actual(files), Declared(m.files), lib.sha256)
  {
    hide MembersOk, EntriesOk, Declared, Actual, Matches, Corresponds, MANIFEST_NAME, SafeMemberName;
    var declared, actual := Declared(m.files), Actual(files);
    DeclaredKeys(m.files);
    ActualKeys(files);
    forall i | 0 <= i < |files| && i != k
      ensures files[i].name in actual && actual[files[i].name] == files[i]
      ensures Matches(files[i].name, files[i], declared, lib.sha256) <==> DeclaredBy(m.files, files[i], lib.sha256)
    {
      OtherMember(files, lib.toLower, k, i);
      MatchesIff(m.files, files, lib, i);
    }
    forall name | name in actual ensures exists i :: 0 <= i < |files| && i != k && files[i].name == name {
      var i :| 0 <= i < |files| && files[i] == actual[name];
      assert i != k;
    }
    if AllMatch(actual, declared, lib.sha256) {
      forall i | 0 <= i < |files| && i != k
        ensures DeclaredBy(m.files, files[i], lib.sha256)
      {
        assert files[i].name in actual;
      }
      forall d | 0 <= d < |m.files|
        ensures PresentIn(files, k, m.files[d].path)
      {
        assert m.files[d].path in declared;
      }
    }
    if SameFiles(m.files, files, k, lib.sha256) {
      forall name | name in actual ensures Matches(name, actual[name], declared, lib.sha256) {
        var i :| 0 <= i < |files| && i != k && files[i].name == name;
        assert DeclaredBy(m.files, files[i], lib.sha256);
      }
      forall name | name in declared ensures name in actual {
        var d :| 0 <= d < |m.files| && m.files[d].path == name;
        assert PresentIn(files, k, m.files[d].path);
      }
    }
  }

  lemma OtherMember(files: seq<ZipFile>, toLower: string -> string, k: nat, i: nat)
    requires MembersOk(files, toLower) && k < |files| && files[k].name == MANIFEST_NAME && i < |files| && i != k
    ensures files[i].name != MANIFEST_NAME
    ensures files[i].name in Actual(files) && Actual(files)[files[i].name] == files[i]
  {
    hide Actual, MANIFEST_NAME, MembersOk;
    if files[i].name == MANIFEST_NAME {
      NamesDistinct(files, toLower, i, k);
    }
    ActualIs(files, toLower, i);
  }

  lemma MatchesIff(entries: seq<FileEntry>, files: seq<ZipFile>, lib: Libraries, i: nat)
    requires MembersOk(files, lib.toLower) && EntriesOk(entries) && i < |files|
    ensures Matches(files[i].name, files[i], Declared(entries), lib.sha256) <==>
            DeclaredBy(entries, files[i], lib.sha256)
  {
    hide Declared, SafeMemberName, RatioOk, EntryOk;
    var f := files[i];
    DeclaredKeys(entries);
    assert f.uncompressed <= MAX_EXPANDED_BYTES by {
      assert MemberOk(files, i, lib.toLower);
      assert files[..i + 1][..i] == files[..i];
    }
    if f.name in Declared(entries) {
      var d := DeclaredAt(entries, f.name);
      assert Matches(f.name, f, Declared(entries), lib.sha256) ==> Corresponds(entries[d], f, lib.sha256);
    }
  }

  // ---------- Archives ----------

  /** The preview's requirements, check by check, are those on a sound archive. */
  lemma {:induction false} ArchiveIff(data: Bytes, version: string, lib: Libraries, files: seq<ZipFile>, k: nat)
    ensures ArchiveOk(data, version, lib, files, k) <==> SoundArchive(data, version, lib, files, k)
  {
    hide MembersOk, SoundMembers, EntriesOk, SoundDeclarations, SameFiles, DuplicateKeys.OneUniqueValue;
    hide Declared, Actual, AllMatch, MANIFEST_NAME, SIGNATURE, SemverPrecedence.Accepts;
    ManifestNameIs();
    SoundMembersIff(files, lib.toLower);
    if k < |files| && files[k].content.Some? && lib.manifest(files[k].content.value).Some? {
      var m := lib.manifest(files[k].content.value).value;
      DeclarationsIff(m);
      if MembersOk(files, lib.toLower) && files[k].name == MANIFEST_NAME && EntriesOk(m.files) {
        SameFilesIff(m, files, k, lib);
      }
    }
  }

  lemma ManifestNameIs()
    ensures MANIFEST_NAME == "canon-pack-manifest.json"
  {
  }
}
