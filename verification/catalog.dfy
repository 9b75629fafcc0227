/**
 * The packages tab: records grouped by name (in order of first
 * appearance), then by architecture (likewise), and each group's releases
 * sorted ascending by version as plain strings and then reversed.
 */
module Catalog {
  import opened Wrappers
  import opened Seqs
  import opened Strings
  import opened Sorting
  import opened Packages

  function NameOf(p: Package): string { p.name }
  function ArchOf(p: Package): Option<string> { p.arch }
  function VersionOf(p: Package): string { p.version }
  /** The pair tested by `p.name === name && p.arch === arch`. */
  function NameArchOf(p: Package): (string, Option<string>) { (p.name, p.arch) }

  datatype ArchGroup = ArchGroup(arch: Option<string>, releases: seq<Package>)
  datatype NameGroup = NameGroup(name: string, arches: seq<ArchGroup>)

  /** `[...new Set(packages.map(p => p.name))]`. */
  function Names(ps: seq<Package>): (names: seq<string>)
    ensures NoDuplicates(names)
    ensures forall i :: 0 <= i < |names| ==> exists q :: 0 <= q < |ps| && ps[q].name == names[i]
    ensures forall q :: 0 <= q < |ps| ==> ps[q].name in names
  {
    var all := MapSeq(ps, NameOf);
    assert forall q :: 0 <= q < |ps| ==> all[q] == ps[q].name;
    Distinct(all)
  }

  /** `[...new Set(packages.filter(p => p.name === name).map(p => p.arch))]`. */
  function Arches(ps: seq<Package>, name: string): (arches: seq<Option<string>>)
    ensures NoDuplicates(arches)
    ensures forall i :: 0 <= i < |arches| ==>
      exists q :: 0 <= q < |ps| && ps[q].name == name && ps[q].arch == arches[i]
    ensures forall q :: 0 <= q < |ps| && ps[q].name == name ==> ps[q].arch in arches
  {
    var named := FilterKey(ps, NameOf, name);
    var all := MapSeq(named, ArchOf);
    FilterKeyMembers(ps, NameOf, name);
    assert forall q :: 0 <= q < |ps| && ps[q].name == name ==> ps[q] in named;
    Distinct(all)
  }

  /**
   * `packages.filter(p => p.name === name && p.arch === arch)
   *    .sort((a, b) => a.version > b.version ? 1 : a.version < b.version ? -1 : 0)
   *    .reverse()`.
   */
  function Releases(ps: seq<Package>, name: string, arch: Option<string>): seq<Package> {
    Reverse(SortBy(FilterKey(ps, NameArchOf, (name, arch)), VersionOf))
  }

  function GroupArches(ps: seq<Package>, name: string, arches: seq<Option<string>>): (gs: seq<ArchGroup>)
    ensures |gs| == |arches|
    ensures forall j :: 0 <= j < |gs| ==> gs[j] == ArchGroup(arches[j], Releases(ps, name, arches[j]))
  {
    if arches == [] then []
    else [ArchGroup(arches[0], Releases(ps, name, arches[0]))] + GroupArches(ps, name, arches[1..])
  }

  function GroupNames(ps: seq<Package>, names: seq<string>): (gs: seq<NameGroup>)
    ensures |gs| == |names|
    ensures forall i :: 0 <= i < |gs| ==>
      gs[i] == NameGroup(names[i], GroupArches(ps, names[i], Arches(ps, names[i])))
  {
    if names == [] then []
    else [NameGroup(names[0], GroupArches(ps, names[0], Arches(ps, names[0])))]
         + GroupNames(ps, names[1..])
  }

  /** The whole packages tab. */
  function Build(ps: seq<Package>): seq<NameGroup> {
    GroupNames(ps, Names(ps))
  }

  function ArchReleases(gs: seq<ArchGroup>): seq<Package> {
    if gs == [] then [] else gs[0].releases + ArchReleases(gs[1..])
  }

  /** Every release listed on the tab, group after group. */
  function AllReleases(gs: seq<NameGroup>): seq<Package> {
    if gs == [] then [] else ArchReleases(gs[0].arches) + AllReleases(gs[1..])
  }

  // ---------------------------------------------------------------- order of names and arches

  /**
   * The names come in order of first appearance: a record bearing a later
   * name is always preceded by a record bearing each earlier name.
   */
  lemma NamesFirstAppearance(ps: seq<Package>, i: nat, j: nat, q: nat)
    requires i < j < |Names(ps)| && q < |ps| && ps[q].name == Names(ps)[j]
    ensures exists p :: 0 <= p < q && ps[p].name == Names(ps)[i]
  {
    var all := MapSeq(ps, NameOf);
    DistinctPrecedence(all, i, j, q);
    var p :| 0 <= p < q && all[p] == Distinct(all)[i];
    assert ps[p].name == Names(ps)[i];
  }

  /**
   * The arches of a name come in order of first appearance among the
   * records of that name.
   */
  lemma ArchesFirstAppearance(ps: seq<Package>, name: string, i: nat, j: nat, q: nat)
    requires i < j < |Arches(ps, name)| && q < |ps|
    requires ps[q].name == name && ps[q].arch == Arches(ps, name)[j]
    ensures exists p :: 0 <= p < q && ps[p].name == name && ps[p].arch == Arches(ps, name)[i]
  {
    var named := FilterKey(ps, NameOf, name);
    var all := MapSeq(named, ArchOf);
    // The position of ps[q] among the records of that name.
    var before := FilterKey(ps[..q], NameOf, name);
    FilterKeyPosition(ps, NameOf, name, q);
    FilterKeyMembers(ps[..q], NameOf, name);
    var q' := |before|;
    assert all[q'] == ps[q].arch;
    DistinctPrecedence(all, i, j, q');
    var p' :| 0 <= p' < q' && all[p'] == Distinct(all)[i];
    assert named[p'] == named[..q'][p'] == before[p'];
    assert before[p'] in ps[..q];
    var p :| 0 <= p < q && ps[p] == before[p'];
    assert ps[p].arch == Arches(ps, name)[i];
  }

  // ---------------------------------------------------------------- the release lists

  /** The filter of a release list is the filter by name followed by the filter by arch. */
  lemma {:induction false} FilterNameArch(ps: seq<Package>, name: string, arch: Option<string>)
    ensures FilterKey(ps, NameArchOf, (name, arch))
      == FilterKey(FilterKey(ps, NameOf, name), ArchOf, arch)
  {
    if ps != [] {
      FilterNameArch(ps[1..], name, arch);
      var t := FilterKey(ps[1..], NameOf, name);
      var head := if ps[0].name == name && ps[0].arch == arch then [ps[0]] else [];
      assert FilterKey(ps, NameArchOf, (name, arch)) == head + FilterKey(ps[1..], NameArchOf, (name, arch));
      if ps[0].name == name {
        assert FilterKey(ps, NameOf, name) == [ps[0]] + t;
        assert ([ps[0]] + t)[1..] == t;
        assert FilterKey([ps[0]] + t, ArchOf, arch) == head + FilterKey(t, ArchOf, arch);
      } else {
        assert FilterKey(ps, NameOf, name) == t;
      }
    }
  }

  lemma ReleasesMultiset(ps: seq<Package>, name: string, arch: Option<string>)
    ensures multiset(Releases(ps, name, arch)) == multiset(FilterKey(ps, NameArchOf, (name, arch)))
  {
    ReverseMultiset(SortBy(FilterKey(ps, NameArchOf, (name, arch)), VersionOf));
  }

  /**
   * A release list holds exactly the records of its name and arch, with
   * versions non-increasing as strings, and records of equal version in
   * reverse input order.
   */
  lemma ReleasesOrdered(ps: seq<Package>, name: string, arch: Option<string>)
    ensures var r, f := Releases(ps, name, arch), FilterKey(ps, NameArchOf, (name, arch));
      multiset(r) == multiset(f)
      && (forall p :: p in r ==> p.name == name && p.arch == arch)
      && Descending(r, VersionOf)
      && (forall v :: FilterKey(r, VersionOf, v) == Reverse(FilterKey(f, VersionOf, v)))
  {
    var f := FilterKey(ps, NameArchOf, (name, arch));
    var sorted := SortBy(f, VersionOf);
    var r := Reverse(sorted);
    ReleasesMultiset(ps, name, arch);
    SortAscending(f, VersionOf);
    ReverseAscending(sorted, VersionOf);
    forall v ensures FilterKey(r, VersionOf, v) == Reverse(FilterKey(f, VersionOf, v)) {
      FilterKeyReverse(sorted, VersionOf, v);
      SortStable(f, VersionOf, v);
    }
    forall p | p in r ensures p.name == name && p.arch == arch {
      ReleasesMembers(ps, name, arch, p);
    }
  }

  /** Versions compare as strings: "1.9.0" is listed above "1.10.0". */
  lemma ReleaseOrderExample(p1: Package, p2: Package)
    requires p1.name == p2.name && p1.arch == p2.arch
    requires p1.version == "1.10.0" && p2.version == "1.9.0"
    ensures Releases([p1, p2], p1.name, p1.arch) == [p2, p1]
  {
    LexNotSemantic();
    assert [p1, p2][1..] == [p2];
    assert FilterKey([p2], NameArchOf, (p1.name, p1.arch)) == [p2];
    assert FilterKey([p1, p2], NameArchOf, (p1.name, p1.arch)) == [p1, p2];
    assert SortBy([p2], VersionOf) == [p2];
    assert SortBy([p1, p2], VersionOf) == [p1, p2];
  }

  /** Records of equal version end up in reverse input order. */
  lemma EqualVersionsExample(p1: Package, p2: Package)
    requires p1.name == p2.name && p1.arch == p2.arch && p1.version == p2.version
    ensures Releases([p1, p2], p1.name, p1.arch) == [p2, p1]
  {
    CompareConsistent(p1.version, p2.version);
    assert [p1, p2][1..] == [p2];
    assert FilterKey([p2], NameArchOf, (p1.name, p1.arch)) == [p2];
    assert FilterKey([p1, p2], NameArchOf, (p1.name, p1.arch)) == [p1, p2];
    assert SortBy([p2], VersionOf) == [p2];
    assert SortBy([p1, p2], VersionOf) == [p1, p2];
  }

  // ---------------------------------------------------------------- completeness

  lemma {:induction false} ArchGroupsPartition(ps: seq<Package>, name: string, arches: seq<Option<string>>)
    ensures multiset(ArchReleases(GroupArches(ps, name, arches)))
      == UnionOver(arches, FilterKey(ps, NameOf, name), ArchOf)
  {
    if arches != [] {
      ArchGroupsPartition(ps, name, arches[1..]);
      ReleasesMultiset(ps, name, arches[0]);
      FilterNameArch(ps, name, arches[0]);
      var gs := GroupArches(ps, name, arches);
      assert gs[1..] == GroupArches(ps, name, arches[1..]);
    }
  }

  lemma {:induction false} NameGroupsPartition(ps: seq<Package>, names: seq<string>)
    ensures multiset(AllReleases(GroupNames(ps, names))) == UnionOver(names, ps, NameOf)
  {
    if names != [] {
      NameGroupsPartition(ps, names[1..]);
      var n := names[0];
      var named := FilterKey(ps, NameOf, n);
      ArchGroupsPartition(ps, n, Arches(ps, n));
      FilterKeyMembers(ps, NameOf, n);
      forall x | x in named ensures ArchOf(x) in Arches(ps, n) {
        var q :| 0 <= q < |ps| && ps[q] == x;
      }
      PartitionByKey(Arches(ps, n), named, ArchOf);
      var gs := GroupNames(ps, names);
      assert gs[1..] == GroupNames(ps, names[1..]);
    }
  }

  /**
   * Nothing is dropped or duplicated: the tab lists every record exactly
   * as often as the manifest holds it, so the group sizes add up to the
   * number of records.
   */
  lemma CatalogPartition(ps: seq<Package>)
    ensures multiset(AllReleases(Build(ps))) == multiset(ps)
    ensures |AllReleases(Build(ps))| == |ps|
  {
    NameGroupsPartition(ps, Names(ps));
    forall x | x in ps ensures NameOf(x) in Names(ps) {
      var q :| 0 <= q < |ps| && ps[q] == x;
    }
    PartitionByKey(Names(ps), ps, NameOf);
    assert |multiset(AllReleases(Build(ps)))| == |multiset(ps)|;
  }

  /** A release list holds only records of its own name and arch. */
  lemma ReleasesMembers(ps: seq<Package>, name: string, arch: Option<string>, p: Package)
    requires p in Releases(ps, name, arch)
    ensures p in ps && p.name == name && p.arch == arch
  {
    ReleasesMultiset(ps, name, arch);
    assert p in multiset(Releases(ps, name, arch));
    FilterKeyMembers(ps, NameArchOf, (name, arch));
    assert p in FilterKey(ps, NameArchOf, (name, arch));
  }

  /**
   * Every record falls into exactly one group: the one of its own name and
   * arch, which the tab lists; no other release list holds it.
   */
  lemma RecordInExactlyOneGroup(ps: seq<Package>, p: Package)
    requires p in ps
    ensures p.name in Names(ps) && p.arch in Arches(ps, p.name)
    ensures p in Releases(ps, p.name, p.arch)
    ensures forall n, a :: (n, a) != (p.name, p.arch) ==> p !in Releases(ps, n, a)
  {
    var q :| 0 <= q < |ps| && ps[q] == p;
    ReleasesMultiset(ps, p.name, p.arch);
    FilterKeyMembers(ps, NameArchOf, (p.name, p.arch));
    assert p in FilterKey(ps, NameArchOf, (p.name, p.arch));
    assert p in multiset(Releases(ps, p.name, p.arch));
    forall n, a | (n, a) != (p.name, p.arch) ensures p !in Releases(ps, n, a) {
      if p in Releases(ps, n, a) {
        ReleasesMembers(ps, n, a, p);
      }
    }
  }
}
