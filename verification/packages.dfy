/**
 * The package records: what the manifest holds for each file, and the
 * three fields derived from its storage key.
 */
module Packages {
  import opened Wrappers
  import opened Seqs
  import opened Strings

  /** A manifest entry. `size` is the entry's size as text: a JSON number or string, both read by `parseInt` as text. */
  datatype RawPackage = RawPackage(key: string, size: string, modified: string)

  /** A manifest entry with its name, version and architecture; `arch` is absent (`undefined`) for a key without `/`. */
  datatype Package = Package(
    key: string, size: string, modified: string,
    name: string, version: string, arch: Option<string>)

  const ProductPrefix: string := "manta-"
  const PlatformSuffix: string := ".fc35.x86_64.rpm"

  /** `key.split('/').reverse()[0]`: the file name. */
  function Filename(key: string): string {
    Reverse(Split(key, '/'))[0]
  }

  /** `filename.split('-')[0]`. */
  function PackageName(key: string): string {
    Split(Filename(key), '-')[0]
  }

  /** `filename.replace('manta-', '').replace('.fc35.x86_64.rpm', '')`. */
  function PackageVersion(key: string): string {
    RemoveFirst(RemoveFirst(Filename(key), ProductPrefix), PlatformSuffix)
  }

  /** `key.split('/')[1]`, `undefined` when there is no second segment. */
  function PackageArch(key: string): Option<string> {
    var segments := Split(key, '/');
    if |segments| > 1 then Some(segments[1]) else None
  }

  /** `{...p, name, version, arch}`. */
  function Derive(raw: RawPackage): Package {
    Package(raw.key, raw.size, raw.modified,
            PackageName(raw.key), PackageVersion(raw.key), PackageArch(raw.key))
  }

  /** `packages.map(p => ({...p, name, version, arch}))`. */
  function DeriveAll(raws: seq<RawPackage>): seq<Package> {
    MapSeq(raws, Derive)
  }

  /**
   * The catalog after the one fetch of the manifest: `None` stands for any
   * failure (a network error, a body that is not a JSON array, an entry
   * whose `key` is not a string), which is logged and leaves the catalog at
   * its initial empty value.
   */
  function Load(response: Option<seq<RawPackage>>): (catalog: seq<Package>)
    ensures response.None? ==> catalog == []
    ensures response.Some? ==> |catalog| == |response.value|
    ensures response.Some? ==> forall i :: 0 <= i < |catalog| ==> catalog[i] == Derive(response.value[i])
  {
    match response
    case None => []
    case Some(raws) => DeriveAll(raws)
  }

  /**
   * Deriving keeps every manifest field, keeps the records' number and
   * order, and computes the new fields from the key alone.
   */
  lemma DeriveAllKeepsRecords(raws: seq<RawPackage>)
    ensures var ps := DeriveAll(raws);
      |ps| == |raws|
      && (forall i :: 0 <= i < |ps| ==>
            ps[i].key == raws[i].key && ps[i].size == raws[i].size && ps[i].modified == raws[i].modified)
      && (forall i, j :: 0 <= i < |ps| && 0 <= j < |ps| && raws[i].key == raws[j].key ==>
            ps[i].name == ps[j].name && ps[i].version == ps[j].version && ps[i].arch == ps[j].arch)
  {
  }

  /**
   * The file name is the longest suffix of the key without `/`: the whole
   * key when it has no `/`, otherwise what follows the last `/`.
   */
  lemma FilenameIsLastSegment(key: string)
    ensures var f := Filename(key);
      '/' !in f && |f| <= |key| && key[|key| - |f|..] == f
      && (|f| < |key| ==> key[|key| - |f| - 1] == '/')
      && ('/' !in key <==> f == key)
  {
    var parts := Split(key, '/');
    JoinLast(parts, '/');
    SplitSingle(key, '/');
    assert Filename(key) == Last(parts);
  }

  /** The file name of `dir + m`, for a directory part ending in `/`, is `m`. */
  lemma FilenameOfPath(dir: string, m: string)
    requires dir == [] || Last(dir) == '/'
    requires '/' !in m
    ensures Filename(dir + m) == m
  {
    var key := dir + m;
    var f := Filename(key);
    FilenameIsLastSegment(key);
    assert key[|dir|..] == m;
    assert key[|key| - |m|..] == m;
  }

  /**
   * The name is the longest prefix of the file name without `-`: the whole
   * file name when it has no `-`, otherwise what precedes the first `-`.
   */
  lemma NameIsFilenameBeforeHyphen(key: string)
    ensures var f, n := Filename(key), PackageName(key);
      '-' !in n && |n| <= |f| && f[..|n|] == n
      && (|n| < |f| ==> f[|n|] == '-')
      && ('-' !in f <==> n == f)
  {
    var f := Filename(key);
    var parts := Split(f, '-');
    JoinFirst(parts, '-');
    SplitSingle(f, '-');
  }

  /** The architecture is absent exactly when the key has no `/`. */
  lemma ArchAbsent(key: string)
    ensures PackageArch(key).None? <==> '/' !in key
  {
    SplitSingle(key, '/');
  }

  /** A file name holding neither literal is its own version. */
  lemma VersionWithoutLiterals(key: string)
    requires forall j :: !OccursAt(Filename(key), ProductPrefix, j)
    requires forall j :: !OccursAt(Filename(key), PlatformSuffix, j)
    ensures PackageVersion(key) == Filename(key)
  {
  }

  /** Removing the first occurrence of a leading pattern strips the prefix. */
  lemma RemoveLeading(pat: string, rest: string)
    ensures RemoveFirst(pat + rest, pat) == rest
  {
    assert OccursAt(pat + rest, pat, 0);
  }

  /** Removing the first occurrence of a trailing pattern that does not start earlier strips the suffix. */
  lemma RemoveTrailing(v: string, pat: string)
    requires forall j :: 0 <= j < |v| ==> !OccursAt(v + pat, pat, j)
    ensures RemoveFirst(v + pat, pat) == v
  {
    var w := v + pat;
    assert OccursAt(w, pat, |v|) by {
      assert w[|v|..|v| + |pat|] == pat;
    }
    assert w[..|v|] == v;
    assert w[|v| + |pat|..] == [];
  }

  /** The first part of `a + sep + w` split on `sep` is `a`, when `a` holds no `sep`. */
  lemma FirstPartBeforeSeparator(a: string, sep: char, w: string)
    requires sep !in a
    ensures Split(a + [sep] + w, sep)[0] == a
  {
    var s := a + [sep] + w;
    var parts := Split(s, sep);
    JoinFirst(parts, sep);
    assert s[..|a|] == a && s[|a|] == sep;
  }

  /**
   * The naming convention round-trips: the file `manta-<v>.fc35.x86_64.rpm`
   * under any directory has name `manta` and version `<v>`, provided the
   * platform suffix does not already start inside `<v>`.
   */
  lemma ConventionalFilename(dir: string, v: string)
    requires dir == [] || Last(dir) == '/'
    requires '/' !in v
    requires forall j :: 0 <= j < |v| ==> !OccursAt(v + PlatformSuffix, PlatformSuffix, j)
    ensures PackageName(dir + (ProductPrefix + v + PlatformSuffix)) == "manta"
    ensures PackageVersion(dir + (ProductPrefix + v + PlatformSuffix)) == v
  {
    var w := v + PlatformSuffix;
    var m := ProductPrefix + v + PlatformSuffix;
    LiteralFacts();
    assert m == ProductPrefix + w;
    assert m == "manta" + ['-'] + w;
    assert '/' !in m;
    FilenameOfPath(dir, m);
    assert PackageName(dir + m) == "manta" by {
      FirstPartBeforeSeparator("manta", '-', w);
    }
    assert PackageVersion(dir + m) == v by {
      RemoveLeading(ProductPrefix, w);
      RemoveTrailing(v, PlatformSuffix);
    }
  }

  /** What the naming convention's literals hold. */
  lemma LiteralFacts()
    ensures ProductPrefix == "manta" + ['-'] && '-' !in "manta"
    ensures '/' !in ProductPrefix && '/' !in PlatformSuffix
  {
  }

  /** The architecture of `top/arch/rest` is `arch`. */
  lemma ArchOfPath(top: string, arch: string, rest: string)
    requires '/' !in top && '/' !in arch
    ensures PackageArch(top + "/" + arch + "/" + rest) == Some(arch)
  {
    SplitAfterSeparator(top, '/', arch + "/" + rest);
    SplitAfterSeparator(arch, '/', rest);
    assert top + "/" + arch + "/" + rest == top + ['/'] + (arch + ['/'] + rest);
  }

  /** The architecture of `top/arch` is `arch`. */
  lemma ArchOfTwoSegments(top: string, arch: string)
    requires '/' !in top && '/' !in arch
    ensures PackageArch(top + "/" + arch) == Some(arch)
  {
    SplitAfterSeparator(top, '/', arch);
    SplitSingle(arch, '/');
    assert top + "/" + arch == top + ['/'] + arch;
  }

  lemma ExampleSuffixPosition()
    ensures forall j :: 0 <= j < |"3.1.1-0"| ==>
      !OccursAt("3.1.1-0" + PlatformSuffix, PlatformSuffix, j)
  {
    var w := "3.1.1-0" + PlatformSuffix;
    forall j | 0 <= j < 7 ensures !OccursAt(w, PlatformSuffix, j) {
      assert w[j + 1] != PlatformSuffix[1];
    }
  }

  lemma ExampleDirectory()
    ensures "RPMS/x86_64/" == "RPMS" + "/" + "x86_64" + "/"
    ensures '/' !in "RPMS" && '/' !in "x86_64"
  {
  }

  /**
   * The record derivation of a real key,
   * "RPMS/x86_64/manta-3.1.1-0.fc35.x86_64.rpm".
   */
  lemma DerivationExample(key: string, size: string, modified: string)
    requires key == "RPMS/x86_64/" + ProductPrefix + "3.1.1-0" + PlatformSuffix
    ensures var p := Derive(RawPackage(key, size, modified));
      p.name == "manta" && p.version == "3.1.1-0" && p.arch == Some("x86_64")
      && p.key == key && p.size == size && p.modified == modified
  {
    var f := ProductPrefix + "3.1.1-0" + PlatformSuffix;
    assert key == "RPMS/x86_64/" + f;
    assert PackageName(key) == "manta" && PackageVersion(key) == "3.1.1-0" by {
      ExampleSuffixPosition();
      assert Last("RPMS/x86_64/") == '/';
      ConventionalFilename("RPMS/x86_64/", "3.1.1-0");
    }
    assert PackageArch(key) == Some("x86_64") by {
      ExampleDirectory();
      assert key == "RPMS" + "/" + "x86_64" + "/" + f;
      ArchOfPath("RPMS", "x86_64", f);
    }
  }
}
