/** The `inject-refs` command: classify the workspace, inject each TypeScript
    package's references, find the packages no TypeScript package depends on
    and, on request, build the aggregate build-all configuration from them. */
module Commands {
  import opened Json
  import opened Sequences
  import opened TsConfig
  import opened Document
  import opened Workspace

  const Include := "include"

  // ---------------------------------------------------------------------
  // Top-level packages

  /** `tsPackages.every(([, d]) => !d.workspaceDependencies.includes(name))` */
  function NoneDependsOn(tsPackages: seq<Package>, name: string): (r: bool)
  {
    tsPackages == [] ||
    (name !in tsPackages[0].info.workspaceDependencies && NoneDependsOn(tsPackages[1..], name))
  }

  lemma {:induction false} NoneDependsOnSpec(tsPackages: seq<Package>, name: string)
    ensures NoneDependsOn(tsPackages, name) <==>
      forall t :: t in tsPackages ==> name !in t.info.workspaceDependencies
  {
    if tsPackages != [] {
      NoneDependsOnSpec(tsPackages[1..], name);
      assert tsPackages == [tsPackages[0]] + tsPackages[1..];
    }
  }

  function IsTopLevel(tsPackages: seq<Package>): (r: Package -> bool)
  {
    (p: Package) => NoneDependsOn(tsPackages, p.name)
  }

  /** The `topLevelPackages` filter. */
  function TopLevelPackages(tsPackages: seq<Package>): (r: seq<Package>)
  {
    Filter(tsPackages, IsTopLevel(tsPackages))
  }

  /** The top-level packages keep the order of `tsPackages`, and a package is
      top-level exactly when it is a TypeScript package whose name no
      TypeScript package, itself included, lists as a workspace dependency. */
  lemma TopLevelPackagesSpec(tsPackages: seq<Package>)
    ensures IsSubsequence(TopLevelPackages(tsPackages), tsPackages)
    ensures forall p :: p in TopLevelPackages(tsPackages) <==>
      p in tsPackages && forall t :: t in tsPackages ==> p.name !in t.info.workspaceDependencies
  {
    FilterIsSubsequence(tsPackages, IsTopLevel(tsPackages));
    forall p ensures p in TopLevelPackages(tsPackages) <==>
      p in tsPackages && forall t :: t in tsPackages ==> p.name !in t.info.workspaceDependencies
    {
      FilterMembership(tsPackages, IsTopLevel(tsPackages), p);
      NoneDependsOnSpec(tsPackages, p.name);
    }
  }

  /** With no dependencies at all, every TypeScript package is top-level. */
  lemma TopLevelWithoutDependencies(tsPackages: seq<Package>)
    requires forall i :: 0 <= i < |tsPackages| ==> tsPackages[i].info.workspaceDependencies == []
    ensures TopLevelPackages(tsPackages) == tsPackages
  {
    forall i | 0 <= i < |tsPackages| ensures IsTopLevel(tsPackages)(tsPackages[i]) {
      NoneDependsOnSpec(tsPackages, tsPackages[i].name);
    }
    FilterAll(tsPackages, IsTopLevel(tsPackages));
  }

  /** A has no dependencies, B depends on A and C on B: only C is top-level. */
  lemma TopLevelChainExample(a: PackageInfo, b: PackageInfo, c: PackageInfo)
    requires a.workspaceDependencies == [] && b.workspaceDependencies == ["A"] && c.workspaceDependencies == ["B"]
    ensures TopLevelPackages([Package("A", a), Package("B", b), Package("C", c)]) == [Package("C", c)]
  {
    var ts := [Package("A", a), Package("B", b), Package("C", c)];
    TopLevelPackagesSpec(ts);
    assert Package("C", c) in TopLevelPackages(ts);
    assert Package("A", a) !in TopLevelPackages(ts) by { assert "A" in ts[1].info.workspaceDependencies; }
    assert Package("B", b) !in TopLevelPackages(ts) by { assert "B" in ts[2].info.workspaceDependencies; }
    var top := TopLevelPackages(ts);
    assert forall x :: x in top ==> x == Package("C", c);
    assert |top| >= 1;
    assert top[0] == Package("C", c);
    assert |top| == 1 by {
      if |top| > 1 {
        FilterIsSubsequence(ts, IsTopLevel(ts));
        assert top[1] == Package("C", c);
        SubsequenceDistinct(top, ts);
      }
    }
  }

  /** A subsequence of a list whose elements are pairwise distinct is itself
      pairwise distinct. */
  lemma {:induction false} SubsequenceDistinct(a: seq<Package>, b: seq<Package>)
    requires IsSubsequence(a, b)
    requires forall i, j :: 0 <= i < j < |b| ==> b[i] != b[j]
    ensures forall i, j :: 0 <= i < j < |a| ==> a[i] != a[j]
    decreases |b|
  {
    if a != [] && b != [] {
      if a[0] == b[0] {
        SubsequenceDistinct(a[1..], b[1..]);
        forall j | 0 < j < |a| ensures a[0] != a[j] {
          SubsequenceMember(a[1..], b[1..], j - 1);
        }
      } else {
        SubsequenceDistinct(a, b[1..]);
      }
    }
  }

  /** Every element of a subsequence occurs in the list. */
  lemma {:induction false} SubsequenceMember(a: seq<Package>, b: seq<Package>, i: nat)
    requires IsSubsequence(a, b) && i < |a|
    ensures a[i] in b
    decreases |b|
  {
    if a[0] == b[0] {
      if i > 0 {
        SubsequenceMember(a[1..], b[1..], i - 1);
      }
    } else {
      SubsequenceMember(a, b[1..], i);
    }
  }

  // ---------------------------------------------------------------------
  // The build-all configuration

  /** Path of each package relative to the workspace root. */
  function RootRelativePaths(projectRoot: string, packages: seq<Package>, ops: PathOps): (r: seq<string>)
    ensures |r| == |packages|
  {
    seq(|packages|, i requires 0 <= i < |packages| =>
      ops.relative(projectRoot, ops.resolve([projectRoot, packages[i].info.location])))
  }

  /** `{ references: topLevelPackages.map(...), include: [] }` */
  function BuildAllConfig(projectRoot: string, topLevel: seq<Package>, ops: PathOps): (r: Value)
  {
    Obj([Prop(References, Arr(RefEntries(RootRelativePaths(projectRoot, topLevel, ops)))),
         Prop(Include, Arr([]))])
  }

  /** The build-all object has exactly the keys `references` and `include`;
      `references` has one `{path}` entry per top-level package, in order,
      holding that package's path from the workspace root; `include` is empty. */
  lemma BuildAllConfigSpec(projectRoot: string, topLevel: seq<Package>, ops: PathOps)
    ensures BuildAllConfig(projectRoot, topLevel, ops).Obj?
    ensures
      var props := BuildAllConfig(projectRoot, topLevel, ops).props;
      |props| == 2 &&
      Get(props, Include) == Some(Arr([])) &&
      Get(props, References).Some? && Get(props, References).value.Arr? &&
      var refs := Get(props, References).value.elems;
      |refs| == |topLevel| &&
      forall i :: 0 <= i < |topLevel| ==>
        refs[i] == Obj([Prop(PathKey, Str(ops.relative(projectRoot, ops.resolve([projectRoot, topLevel[i].info.location]))))])
  {
    var props := BuildAllConfig(projectRoot, topLevel, ops).props;
    FirstIndexAt(props, References, 0);
    FirstIndexAt(props, Include, 1);
  }

  // ---------------------------------------------------------------------
  // injectRefs

  /** What `injectRefs` computes, apart from the files it reads and writes. */
  datatype InjectRefsResult = InjectRefsResult(
    tsPackages: seq<Package>,
    noneTsPackages: seq<Package>,
    lookup: map<string, PackageInfo>,
    topLevelPackages: seq<Package>,
    buildAll: Option<Value>)

  function InjectRefs(projectRoot: string, entries: seq<Package>, tsconfigPathInsidePackages: string,
                      generateBuildAll: bool, ops: PathOps, access: string -> AccessResult): (r: InjectRefsResult)
  {
    var (tsPackages, noneTsPackages) := PartitionNoneTs(projectRoot, entries, tsconfigPathInsidePackages, ops, access);
    var topLevel := TopLevelPackages(tsPackages);
    InjectRefsResult(
      tsPackages,
      noneTsPackages,
      LookupMap(tsPackages),
      topLevel,
      if generateBuildAll then Some(BuildAllConfig(projectRoot, topLevel, ops)) else None)
  }

  /** The lookup map is built from the TypeScript packages alone, so every
      path injected into a TypeScript package's config leads to a
      TypeScript package that it declares as a workspace dependency. */
  lemma InjectedReferencesAreTsPackages(projectRoot: string, entries: seq<Package>, tsconfigPath: string,
                                        generateBuildAll: bool, ops: PathOps, access: string -> AccessResult,
                                        p: Package, i: nat)
    requires UniqueNames(entries)
    requires p in InjectRefs(projectRoot, entries, tsconfigPath, generateBuildAll, ops, access).tsPackages
    requires
      var r := InjectRefs(projectRoot, entries, tsconfigPath, generateBuildAll, ops, access);
      i < |ReferencePaths(projectRoot, p.info, r.lookup, ops)|
    ensures
      var r := InjectRefs(projectRoot, entries, tsconfigPath, generateBuildAll, ops, access);
      exists t :: t in r.tsPackages && t.name in p.info.workspaceDependencies &&
        access(ConfigFilePath(ops, projectRoot, t.info, tsconfigPath)).Accessible? &&
        ReferencePaths(projectRoot, p.info, r.lookup, ops)[i] == RelPath(ops, projectRoot, p.info, t.info)
  {
    var r := InjectRefs(projectRoot, entries, tsconfigPath, generateBuildAll, ops, access);
    PartitionNoneTsMembership(projectRoot, entries, tsconfigPath, ops, access);
    var probe := TsProbe(access, ops, projectRoot, tsconfigPath);
    FilterUniqueNames(entries, probe);
    ReferencePathsSpec(projectRoot, p.info, r.lookup, ops);
    var known := Filter(p.info.workspaceDependencies, InMap(r.lookup));
    var d := known[i];
    assert d in known;
    assert d in Names(r.tsPackages);
    var t :| t in r.tsPackages && t.name == d;
    LookupMapUnique(r.tsPackages, t);
  }

  /** The build-all object exists exactly when `generateBuildAll` is set,
      and then references the top-level packages, in order. */
  lemma InjectRefsBuildAll(projectRoot: string, entries: seq<Package>, tsconfigPath: string,
                           generateBuildAll: bool, ops: PathOps, access: string -> AccessResult)
    ensures
      var r := InjectRefs(projectRoot, entries, tsconfigPath, generateBuildAll, ops, access);
      (r.buildAll.Some? <==> generateBuildAll) &&
      (generateBuildAll ==> r.buildAll.value == BuildAllConfig(projectRoot, r.topLevelPackages, ops)) &&
      IsSubsequence(r.topLevelPackages, r.tsPackages) &&
      (forall p :: p in r.topLevelPackages <==>
        p in r.tsPackages && forall t :: t in r.tsPackages ==> p.name !in t.info.workspaceDependencies)
  {
    var r := InjectRefs(projectRoot, entries, tsconfigPath, generateBuildAll, ops, access);
    TopLevelPackagesSpec(r.tsPackages);
  }

  /** `after` is what `applyOnPackage` leaves of `before` for package
      `name`, and `ok` says whether it succeeded. */
  ghost predicate Applied(ok: bool, before: seq<Prop>, after: seq<Prop>, projectRoot: string, name: string,
                          lookup: map<string, PackageInfo>, ops: PathOps)
  {
    && ok == (name in lookup && CompilerOptionsEditable(before))
    && after == if ok then InjectedConfig(before, ReferencePaths(projectRoot, lookup[name], lookup, ops)).value else before
  }

  /** The per-package loop of `injectRefs`, one package after the other:
      `docs[k]` is the parsed tsconfig of `tsPackages[k]`. A package whose
      edit fails is reported in `ok` and leaves its document untouched; the
      others go on. */
  method ApplyOnAllPackages(docs: seq<TsConfigDocument>, projectRoot: string, tsPackages: seq<Package>,
                            lookup: map<string, PackageInfo>, ops: PathOps) returns (ok: seq<bool>)
    requires |docs| == |tsPackages|
    requires forall i, j :: 0 <= i < j < |docs| ==> docs[i] != docs[j]
    modifies set d | d in docs
    ensures |ok| == |docs|
    ensures forall k :: 0 <= k < |docs| ==>
      Applied(ok[k], old(docs[k].properties), docs[k].properties, projectRoot, tsPackages[k].name, lookup, ops)
  {
    ok := [];
    for k := 0 to |docs|
      invariant |ok| == k
      invariant forall j :: 0 <= j < k ==>
        Applied(ok[j], old(docs[j].properties), docs[j].properties, projectRoot, tsPackages[j].name, lookup, ops)
      invariant forall j :: k <= j < |docs| ==> docs[j].properties == old(docs[j].properties)
    {
      var done := ApplyOnPackage(docs[k], projectRoot, tsPackages[k].name, lookup, ops);
      ok := ok + [done];
    }
  }

  /** The map of `injectRefs` is built from the TypeScript packages, so it
      knows every one of them and gives each its own info: the
      `assertNonNull` of `applyOnPackage` never fires inside `injectRefs`. */
  lemma LookupKnowsTsPackages(projectRoot: string, entries: seq<Package>, tsconfigPath: string,
                              generateBuildAll: bool, ops: PathOps, access: string -> AccessResult)
    requires UniqueNames(entries)
    ensures
      var r := InjectRefs(projectRoot, entries, tsconfigPath, generateBuildAll, ops, access);
      forall k :: 0 <= k < |r.tsPackages| ==>
        r.tsPackages[k].name in r.lookup && r.lookup[r.tsPackages[k].name] == r.tsPackages[k].info
  {
    var r := InjectRefs(projectRoot, entries, tsconfigPath, generateBuildAll, ops, access);
    FilterUniqueNames(entries, TsProbe(access, ops, projectRoot, tsconfigPath));
    forall k | 0 <= k < |r.tsPackages|
      ensures r.tsPackages[k].name in r.lookup && r.lookup[r.tsPackages[k].name] == r.tsPackages[k].info
    {
      LookupMapUnique(r.tsPackages, r.tsPackages[k]);
    }
  }

  /** `injectRefs` with its file edits: classify the packages, build the map
      from the TypeScript packages and edit the document of each TypeScript
      package with it. `docs[k]` is the parsed tsconfig of the k-th
      TypeScript package. A package fails only when its `compilerOptions` is
      not an object literal; every other one gets composite and its
      references. */
  method InjectRefsOnDocuments(docs: seq<TsConfigDocument>, projectRoot: string, entries: seq<Package>,
                               tsconfigPathInsidePackages: string, generateBuildAll: bool,
                               ops: PathOps, access: string -> AccessResult)
    returns (r: InjectRefsResult, ok: seq<bool>)
    requires UniqueNames(entries)
    requires |docs| == |InjectRefs(projectRoot, entries, tsconfigPathInsidePackages, generateBuildAll, ops, access).tsPackages|
    requires forall i, j :: 0 <= i < j < |docs| ==> docs[i] != docs[j]
    modifies set d | d in docs
    ensures r == InjectRefs(projectRoot, entries, tsconfigPathInsidePackages, generateBuildAll, ops, access)
    ensures |ok| == |docs|
    ensures forall k :: 0 <= k < |docs| ==> (ok[k] <==> CompilerOptionsEditable(old(docs[k].properties)))
    ensures forall k :: 0 <= k < |docs| ==>
      docs[k].properties ==
        if ok[k] then InjectedConfig(old(docs[k].properties), ReferencePaths(projectRoot, r.tsPackages[k].info, r.lookup, ops)).value
        else old(docs[k].properties)
  {
    r := InjectRefs(projectRoot, entries, tsconfigPathInsidePackages, generateBuildAll, ops, access);
    LookupKnowsTsPackages(projectRoot, entries, tsconfigPathInsidePackages, generateBuildAll, ops, access);
    ok := ApplyOnAllPackages(docs, projectRoot, r.tsPackages, r.lookup, ops);
  }
}
