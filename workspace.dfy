/** The workspace side of the toolkit: packages as reported by the workspace
    tool, their classification into TypeScript packages by probing for a
    tsconfig file, the name-to-package lookup map, the reference paths
    computed from a package's workspace dependencies, and the per-package
    edit that injects them. */
module Workspace {
  import opened Json
  import opened Sequences
  import opened TsConfig
  import opened Document

  /** What the workspace tool reports for one package. */
  datatype PackageInfo = PackageInfo(
    location: string,
    mismatchedWorkspaceDependencies: seq<string>,
    workspaceDependencies: seq<string>)

  /** One `[packageName, packageInfo]` entry of the workspace info object. */
  datatype Package = Package(name: string, info: PackageInfo)

  /** Node's `path.resolve` (over its list of segments) and `path.relative`,
      taken as given functions. */
  datatype PathOps = PathOps(resolve: seq<string> -> string, relative: (string, string) -> string)

  /** The outcome of `fs.access(path, F_OK)`. */
  datatype AccessResult = Accessible | AccessError(code: string)

  /** Package names are unique, as keys of the workspace info object are. */
  ghost predicate UniqueNames(packages: seq<Package>)
  {
    forall i, j :: 0 <= i < |packages| && 0 <= j < |packages| && packages[i].name == packages[j].name ==> i == j
  }

  ghost function Names(packages: seq<Package>): (r: set<string>)
  {
    set p | p in packages :: p.name
  }

  // ---------------------------------------------------------------------
  // Classification: partitionNoneTs / isTsPackage

  function ConfigFilePath(ops: PathOps, root: string, info: PackageInfo, tsconfigPath: string): (r: string)
  {
    ops.resolve([root, info.location, tsconfigPath])
  }

  /** `isTsPackage`: the tsconfig file is accessible; any access error,
      whatever its cause, counts as "not a TypeScript package". */
  function IsTsPackage(access: string -> AccessResult, ops: PathOps, root: string, info: PackageInfo, tsconfigPath: string): (r: bool)
  {
    match access(ConfigFilePath(ops, root, info, tsconfigPath))
    case Accessible => true
    case AccessError(_) => false
  }

  function TsProbe(access: string -> AccessResult, ops: PathOps, root: string, tsconfigPath: string): (r: Package -> bool)
  {
    (p: Package) => IsTsPackage(access, ops, root, p.info, tsconfigPath)
  }

  /** `partitionNoneTs`: (TypeScript packages, the others), each in input order. */
  function PartitionNoneTs(root: string, input: seq<Package>, tsconfigPath: string, ops: PathOps, access: string -> AccessResult)
    : (r: (seq<Package>, seq<Package>))
  {
    Partition(input, TsProbe(access, ops, root, tsconfigPath))
  }

  /** Every input entry is in exactly one output, and both outputs keep
      input order. */
  lemma PartitionNoneTsSplits(root: string, input: seq<Package>, tsconfigPath: string, ops: PathOps, access: string -> AccessResult)
    ensures
      var (ts, noneTs) := PartitionNoneTs(root, input, tsconfigPath, ops, access);
      multiset(ts) + multiset(noneTs) == multiset(input) &&
      IsSubsequence(ts, input) && IsSubsequence(noneTs, input)
  {
    var probe := TsProbe(access, ops, root, tsconfigPath);
    FilterSplitsMultiset(input, probe);
    FilterIsSubsequence(input, probe);
    FilterIsSubsequence(input, Negate(probe));
  }

  /** The first output holds exactly the entries whose tsconfig file is
      accessible, the second exactly those whose probe failed. */
  lemma PartitionNoneTsMembership(root: string, input: seq<Package>, tsconfigPath: string, ops: PathOps, access: string -> AccessResult)
    ensures
      var (ts, noneTs) := PartitionNoneTs(root, input, tsconfigPath, ops, access);
      (forall p :: p in ts <==> p in input && access(ConfigFilePath(ops, root, p.info, tsconfigPath)).Accessible?) &&
      (forall p :: p in noneTs <==> p in input && access(ConfigFilePath(ops, root, p.info, tsconfigPath)).AccessError?)
  {
    var probe := TsProbe(access, ops, root, tsconfigPath);
    forall p ensures p in Filter(input, probe) <==> p in input && probe(p) {
      FilterMembership(input, probe, p);
    }
    forall p ensures p in Filter(input, Negate(probe)) <==> p in input && !probe(p) {
      FilterMembership(input, Negate(probe), p);
    }
  }

  /** A sub-list of a list with unique names has unique names. */
  lemma {:induction false} FilterUniqueNames(packages: seq<Package>, p: Package -> bool)
    requires UniqueNames(packages)
    ensures UniqueNames(Filter(packages, p))
  {
    if packages != [] {
      var tail := packages[1..];
      assert UniqueNames(tail) by {
        forall i, j | 0 <= i < |tail| && 0 <= j < |tail| && tail[i].name == tail[j].name ensures i == j {
          assert packages[i + 1].name == packages[j + 1].name;
        }
      }
      FilterUniqueNames(tail, p);
      var rest := Filter(tail, p);
      forall x | x in rest ensures x.name != packages[0].name {
        FilterMembership(tail, p, x);
        var k :| 0 <= k < |tail| && tail[k] == x;
        assert packages[k + 1] == x;
      }
    }
  }

  // ---------------------------------------------------------------------
  // The lookup map: new Map(tsPackages)

  /** `new Map(entries)`: a later entry wins on a repeated name. */
  function LookupMap(entries: seq<Package>): (m: map<string, PackageInfo>)
    ensures m.Keys == Names(entries)
  {
    if entries == [] then map[]
    else
      var last := entries[|entries| - 1];
      var init := entries[..|entries| - 1];
      assert entries == init + [last];
      LookupMap(init)[last.name := last.info]
  }

  /** With unique names, the map sends each package's name to its info. */
  lemma {:induction false} LookupMapUnique(entries: seq<Package>, p: Package)
    requires UniqueNames(entries) && p in entries
    ensures LookupMap(entries)[p.name] == p.info
  {
    var last := entries[|entries| - 1];
    var init := entries[..|entries| - 1];
    assert entries == init + [last];
    if p != last {
      var k :| 0 <= k < |entries| && entries[k] == p;
      assert k < |entries| - 1 && p.name != last.name;
      assert UniqueNames(init);
      assert p in init;
      LookupMapUnique(init, p);
    }
  }

  // ---------------------------------------------------------------------
  // Reference paths in applyOnPackage

  function InMap(lookup: map<string, PackageInfo>): (r: string -> bool)
  {
    (d: string) => d in lookup
  }

  /** `deps.map(d => packagesMap.get(d)).filter(v => v !== undefined)`. */
  function PresentInfos(deps: seq<string>, lookup: map<string, PackageInfo>): (r: seq<PackageInfo>)
  {
    if deps == [] then []
    else (if deps[0] in lookup then [lookup[deps[0]]] else []) + PresentInfos(deps[1..], lookup)
  }

  /** The infos kept are those of the dependencies present in the map, in
      declaration order. */
  lemma {:induction false} PresentInfosSpec(deps: seq<string>, lookup: map<string, PackageInfo>)
    ensures
      var known := Filter(deps, InMap(lookup));
      |PresentInfos(deps, lookup)| == |known| &&
      forall i :: 0 <= i < |known| ==> known[i] in lookup && PresentInfos(deps, lookup)[i] == lookup[known[i]]
  {
    if deps != [] {
      PresentInfosSpec(deps[1..], lookup);
    }
  }

  /** The path of `to`'s directory relative to `from`'s directory. */
  function RelPath(ops: PathOps, root: string, from: PackageInfo, to: PackageInfo): (r: string)
  {
    ops.relative(ops.resolve([root, from.location]), ops.resolve([root, to.location]))
  }

  /** The reference paths `applyOnPackage` computes for `info`. */
  function ReferencePaths(root: string, info: PackageInfo, lookup: map<string, PackageInfo>, ops: PathOps): (r: seq<string>)
  {
    var absolutePath := ops.resolve([root, info.location]);
    var deps := PresentInfos(info.workspaceDependencies, lookup);
    seq(|deps|, i requires 0 <= i < |deps| => ops.relative(absolutePath, ops.resolve([root, deps[i].location])))
  }

  /** One path per workspace dependency present in the lookup map, in
      declaration order, each relative from the package to that dependency;
      dependencies missing from the map contribute nothing. */
  lemma ReferencePathsSpec(root: string, info: PackageInfo, lookup: map<string, PackageInfo>, ops: PathOps)
    ensures
      var known := Filter(info.workspaceDependencies, InMap(lookup));
      var r := ReferencePaths(root, info, lookup, ops);
      |r| == |known| <= |info.workspaceDependencies| &&
      (forall i :: 0 <= i < |known| ==> known[i] in lookup && r[i] == RelPath(ops, root, info, lookup[known[i]])) &&
      (forall d :: d in known <==> d in info.workspaceDependencies && d in lookup)
  {
    var known := Filter(info.workspaceDependencies, InMap(lookup));
    PresentInfosSpec(info.workspaceDependencies, lookup);
    forall d ensures d in known <==> d in info.workspaceDependencies && d in lookup {
      FilterMembership(info.workspaceDependencies, InMap(lookup), d);
    }
  }

  /** The reference example: C depends on A, B and X, where X is not a
      TypeScript package; C's references are A's then B's path. */
  lemma ReferencePathsExample(root: string, ops: PathOps, a: PackageInfo, b: PackageInfo, c: PackageInfo)
    requires c.workspaceDependencies == ["A", "B", "X"]
    ensures ReferencePaths(root, c, map["A" := a, "B" := b, "C" := c], ops)
      == [RelPath(ops, root, c, a), RelPath(ops, root, c, b)]
  {
    var lookup := map["A" := a, "B" := b, "C" := c];
    var deps := c.workspaceDependencies;
    assert deps[1..] == ["B", "X"] && deps[1..][1..] == ["X"] && ["X"][1..] == [];
    assert "X" !in lookup;
    assert PresentInfos(["X"], lookup) == [];
    assert PresentInfos(["B", "X"], lookup) == [b];
    assert PresentInfos(deps, lookup) == [a, b];
  }

  // ---------------------------------------------------------------------
  // applyOnPackage

  /** The document `applyOnPackage` writes back: composite ensured, then the
      references replaced by `paths`. */
  function InjectedConfig(props: seq<Prop>, paths: seq<string>): (r: Result<seq<Prop>>)
  {
    match EnsureComposite(props)
    case Ok(p) => Ok(SetReferences(p, paths))
    case Err(e) => Err(e)
  }

  /** The injected document has `composite: true`, references exactly
      `paths` (when `references` was missing or an array), and reads as
      before under every other root key. */
  lemma InjectedConfigSpec(props: seq<Prop>, paths: seq<string>)
    ensures InjectedConfig(props, paths).Ok? <==> CompilerOptionsEditable(props)
    ensures InjectedConfig(props, paths).Ok? ==>
      var r := InjectedConfig(props, paths).value;
      Get(CompilerOptionsOf(r), Composite) == Some(Bool(true)) &&
      (ReferencesEditable(props) ==> Get(r, References) == Some(Arr(RefEntries(paths)))) &&
      (forall k :: k != CompilerOptions && k != References ==> Get(r, k) == Get(props, k))
  {
    EnsureCompositeSpec(props);
    if CompilerOptionsEditable(props) {
      var q := EnsureComposite(props).value;
      SetReferencesSpec(q, paths);
      assert Get(SetReferences(q, paths), CompilerOptions) == Get(q, CompilerOptions);
      assert Get(q, References) == Get(props, References);
    }
  }

  /** Running the injection twice with the same paths gives the document of
      one run: no duplication, no growth. */
  lemma InjectedConfigIdempotent(props: seq<Prop>, paths: seq<string>)
    requires InjectedConfig(props, paths).Ok?
    ensures InjectedConfig(InjectedConfig(props, paths).value, paths) == InjectedConfig(props, paths)
  {
    var q := EnsureComposite(props).value;
    var s := SetReferences(q, paths);
    EnsureCompositeSpec(props);
    EditCompilerOptionsSpec(props, SetCompositeTrue);
    SetReferencesSpec(q, paths);
    assert Get(s, CompilerOptions) == Get(q, CompilerOptions);
    assert CompilerOptionsOf(s) == CompilerOptionsOf(q);
    EnsureCompositeFixpoint(s);
    SetReferencesIdempotent(q, paths);
  }

  /** `applyOnPackage` on one document. `ok` is false, with the document
      untouched, when the package is not in the lookup map (`assertNonNull`
      in `applyOnPackage` throws) or its `compilerOptions` is not an object. */
  method ApplyOnPackage(doc: TsConfigDocument, root: string, packageName: string,
                        lookup: map<string, PackageInfo>, ops: PathOps) returns (ok: bool)
    modifies doc
    ensures ok <==> packageName in lookup && CompilerOptionsEditable(old(doc.properties))
    ensures ok ==>
      doc.properties == InjectedConfig(old(doc.properties), ReferencePaths(root, lookup[packageName], lookup, ops)).value
    ensures !ok ==> doc.properties == old(doc.properties)
  {
    if packageName !in lookup {
      return false;
    }
    var packageInfo := lookup[packageName];
    var paths := ReferencePaths(root, packageInfo, lookup, ops);
    ok := doc.EnsureCompositeProject();
    if ok {
      doc.SetProjectReferences(paths);
    }
  }
}
