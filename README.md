# typescript-monorepo-toolkit — verified model of the tsconfig edit engine

The toolkit keeps the `tsconfig.json` files of a Yarn workspace in line with
the workspace's dependency graph. It classifies the workspace packages into
TypeScript packages (those with a tsconfig file) and the rest. It then edits
each TypeScript package's tsconfig in place: it sets
`compilerOptions.composite = true` and replaces `references` with one
`{ "path": ... }` entry per workspace dependency that is itself a TypeScript
package. On request it also builds an aggregate `build-all-tsconfig.json`
that references every TypeScript package no TypeScript package depends on.
The same edit engine sets or deletes string options (`outDir`, `rootDir`),
and the tests also set the root-level `extends` (src/inject.test.ts:101-131).

The model is in Dafny and is made of these modules:

- `Sequences` (sequences.dfy): order-preserving `Filter`, the one-pass
  `Partition` (lodash `partition`), and subsequence facts.
- `Json` (json.dfy): the document's values. An object is an ORDERED list of
  `Prop(key, value)`. `FirstIndex`/`Get` give the first-match lookup of
  `properties.find(...)`. `Upsert` (overwrite in place or append) and
  `RemoveFirst` (splice out the first match) are the two primitive edits.
- `TsConfig` (tsconfig.dfy): every edit of the root property list as a
  function, with lemmas about what each field holds afterwards, what stays
  unchanged, and idempotence.
- `Document` (document.dfy): class `TsConfigDocument`. It holds the root
  object's property list and edits it in place with the source's own steps
  (find, unshift, push, splice, value assignment). Each method is proved
  equal to its `TsConfig` function.
- `Workspace` (workspace.dfy): packages, the tsconfig probe, `partitionNoneTs`,
  the `new Map(...)` lookup, the reference paths of `applyOnPackage`, and
  `applyOnPackage` itself.
- `Commands` (commands.dfy): `injectRefs`. It covers the top-level-package
  filter, the build-all object, and the per-package loop.
- `Scenarios` (scenarios.dfy): the documents of the toolkit's tests run
  through the edits.

Three facts about the code that the model keeps:

- A package is top-level when no TypeScript package, itself included, lists
  it (src/commands.ts:53-58). A package that depends on itself is therefore
  never top-level.
- A string option is deleted when its value is `undefined` or `""`, which is
  JavaScript falsiness (src/helpers.ts:264, 273).
- `injectRefs` does not await the per-package edits (src/commands.ts:39-46),
  so a failing package surfaces only as an unhandled promise rejection. The
  model's sequential loop returns one success flag per package instead.

## Model

| member | source | states |
|---|---|---|
| `Json.FirstIndex` | src/helpers.ts:197-199 | The index of the first property with the key, with no earlier one carrying it; none exactly when no property carries the key |
| `Json.Get` | src/helpers.ts:260-262 | A lookup finds a value exactly when some property carries the key |
| `Json.UpsertSpec` | src/helpers.ts:237-250 | After overwrite-or-append, the key reads the new value and every other key reads as before. The list changed only at the key's first position, which now holds the new entry, or grew by one entry at the end |
| `Json.UpsertPresent` | src/helpers.ts:237-250 | When the key already reads the value being written, overwrite-or-append leaves the list exactly as it was |
| `Json.UpsertIdempotent` | src/helpers.ts:241-250 | Overwrite-or-append twice with the same value equals once |
| `Json.RemoveFirstSpec` | src/helpers.ts:273-278 | Removing deletes exactly the first matching entry and keeps the others in order. It is a no-op when the key is absent. Every other key reads as before. A key that occurred once is gone |
| `TsConfig.EnsureCompilerOptionsSpec` | src/helpers.ts:196-214 | The root is unchanged when `compilerOptions` exists. Otherwise an empty object is inserted at index 0 and every old property moves up by one, unaltered. Other keys read as before |
| `TsConfig.EnsureReferencesSpec` | src/helpers.ts:216-232 | The root is unchanged when `references` exists. Otherwise an empty array is appended at the end. Other keys read as before |
| `TsConfig.EditCompilerOptions` | src/helpers.ts:235-237 | Editing inside `compilerOptions` succeeds exactly when it is missing or an object literal; otherwise the source throws |
| `TsConfig.EditCompilerOptionsNoop` | src/helpers.ts:258-262 | When `compilerOptions` is already an object and the edit leaves its list alone, the whole document is unchanged |
| `TsConfig.EditCompilerOptionsSpec` | src/helpers.ts:258-262 | `compilerOptions` becomes the edited list. The root changes only at that entry, and every other root key reads as before |
| `TsConfig.EnsureCompositeSpec` | src/helpers.ts:234-251 | `compilerOptions.composite` reads `true` and every other option reads as before. The options list changed only at the old `composite` entry, which now holds `composite: true`, or gained `composite: true` at its end. Other root keys are unchanged. It fails exactly when `compilerOptions` is not an object |
| `TsConfig.EnsureCompositeFixpoint` | src/helpers.ts:237-250 | A document whose options already read `composite: true` is left exactly as it is |
| `TsConfig.EnsureCompositeIdempotent` | src/helpers.ts:234-251 | Ensuring composite twice gives the same document as once |
| `TsConfig.SetReferencesSpec` | src/helpers.ts:179-194 | `references` holds exactly `{path: p0} ... {path: pn-1}` in order, and old elements are gone. The root changed only at the first `references` entry, which now holds the new array, or gained it at the end. Other keys read as before. A non-array `references` is left alone |
| `TsConfig.SetReferencesLastWins` | src/helpers.ts:181 | Setting references after an earlier call gives the same document as the later call alone: full replacement, never a merge |
| `TsConfig.SetReferencesIdempotent` | src/helpers.ts:179-194 | Repeating the call with the same paths is a no-op: no duplication, no growth |
| `TsConfig.SetStringFieldSpec` | src/helpers.ts:260-281 | A truthy value is read back, either at the key's old position, which now holds the new string (nothing else changes), or in a new last entry. An `undefined`/`""` value removes the first entry with the key and keeps the rest in order, or changes nothing when the key is absent. Other keys read as before |
| `TsConfig.SetStringFieldIdempotent` | src/helpers.ts:264-281 | The same string edit twice equals once. For a delete this needs the key to occur at most once |
| `TsConfig.SetCompilerOptionsStringSpec` | src/helpers.ts:253-282 | `compilerOptions` is always ensured and its list is edited by the string rule. Deleting an absent key leaves exactly the ensured document. Other root keys read as before. It fails only when `compilerOptions` is not an object |
| `TsConfig.UnwrapWrap` | src/helpers.ts:123-142 | Stripping the first and last character of `"[" + s + "]"` gives back `s` |
| `Document.TsConfigDocument.constructor` | src/helpers.ts:125 | A document holds the given root properties |
| `Document.TsConfigDocument.FindEnsureCompilerOptions` | src/helpers.ts:196-214 | Unshifts an empty `compilerOptions` when missing and returns the index of the first `compilerOptions` |
| `Document.TsConfigDocument.FindEnsureProjectReferences` | src/helpers.ts:216-232 | Pushes an empty `references` when missing and returns the index of the first `references` |
| `Document.TsConfigDocument.EnsureCompositeProject` | src/helpers.ts:234-251 | The find/push/assign steps produce `EnsureComposite`. On failure nothing changed |
| `Document.TsConfigDocument.SetProjectReferences` | src/helpers.ts:179-194 | Emptying `elements` and pushing one entry per path produces `SetReferences` |
| `Document.TsConfigDocument.SetCompilerOptionsStringProp` | src/helpers.ts:253-282 | The in-place steps produce `SetCompilerOptionsString`. On failure nothing changed |
| `Document.TsConfigDocument.SetRootStringProp` | src/inject.test.ts:101-131 | The root-level setter applies the string rule to the root object |
| `Document.SetStringProp` | src/helpers.ts:260-281 | The find, push-if-missing, then splice-or-assign steps compute the string-field rule |
| `Sequences.Partition` | src/helpers.ts:72-76 | The single pass returns the elements passing the test and those failing it, both in input order; their sizes add up to the input's |
| `Workspace.PartitionNoneTsSplits` | src/helpers.ts:48-76 | Every package lands in exactly one output, and both outputs keep input order |
| `Workspace.PartitionNoneTsMembership` | src/helpers.ts:53-106 | The first output holds exactly the packages whose tsconfig is accessible; any access error puts a package in the second |
| `Workspace.FilterUniqueNames` | src/helpers.ts:72-76 | Each side of the partition keeps the workspace's unique package names |
| `Workspace.LookupMap` | src/commands.ts:35 | The map's keys are exactly the names of the given packages |
| `Workspace.LookupMapUnique` | src/commands.ts:35 | With unique names, the map sends each package's name to that package's info |
| `Workspace.PresentInfosSpec` | src/helpers.ts:127-129 | Looking up the dependencies and dropping undefined results keeps the infos of exactly the dependencies present in the map, in order |
| `Workspace.ReferencePathsSpec` | src/helpers.ts:127-133 | The paths are `relative(pkg, dep)` for exactly the declared dependencies present in the map, in declaration order, and there are at most as many as dependencies |
| `Workspace.ReferencePathsExample` | src/helpers.ts:127-133 | For C depending on A, B and a non-TypeScript X, the references are A's path and then B's |
| `Workspace.InjectedConfigSpec` | src/helpers.ts:135-136 | After injection, composite reads `true` and references are exactly the computed entries. Every other root key reads as before |
| `Workspace.InjectedConfigIdempotent` | src/helpers.ts:135-136 | Injecting twice with the same paths gives the document of one injection |
| `Workspace.ApplyOnPackage` | src/helpers.ts:108-144 | The document becomes the injected config, or stays untouched when the package is unknown (`assertNonNull`) or `compilerOptions` is not an object |
| `Commands.NoneDependsOnSpec` | src/commands.ts:54-57 | `every(... !includes(name))` holds exactly when no listed package declares the name |
| `Commands.TopLevelPackagesSpec` | src/commands.ts:53-58 | Top-level packages keep the order of the TypeScript packages. A package is top-level exactly when no TypeScript package, itself included, lists it |
| `Commands.TopLevelWithoutDependencies` | src/commands.ts:53-58 | With no dependencies every TypeScript package is top-level |
| `Commands.TopLevelChainExample` | src/commands.ts:53-58 | For A, B→A, C→B the top-level list is `[C]` |
| `Commands.BuildAllConfigSpec` | src/commands.ts:64-72 | The build-all object has exactly `references` and `include`. It holds one `{path}` per top-level package, in order, each relative to the workspace root, and `include` is empty |
| `Commands.InjectedReferencesAreTsPackages` | src/commands.ts:35-45 | Every injected path leads to a TypeScript package that the package declares as a dependency, because the lookup map is built from TypeScript packages only |
| `Commands.InjectRefsBuildAll` | src/commands.ts:53-80 | The build-all object exists exactly when `generateBuildAll` is set and references the top-level packages |
| `Commands.ApplyOnAllPackages` | src/commands.ts:37-50 | Run sequentially, each TypeScript package's document becomes its injected config or stays untouched, with a success flag per package |
| `Commands.LookupKnowsTsPackages` | src/commands.ts:35-45 | The map built from the TypeScript packages contains every TypeScript package's name and maps it to that package's own info, so `assertNonNull` in `applyOnPackage` never fires inside `injectRefs` |
| `Commands.InjectRefsOnDocuments` | src/commands.ts:20-50 | Classifying, building the map from the TypeScript packages and editing each TypeScript package's document: a package fails exactly when its `compilerOptions` is not an object literal, and otherwise its document becomes the injected config with that package's reference paths |
| `Scenarios.EnsureCompositeOnFixture` | src/inject.test.ts:16-57 | On the test fixture only `"composite": true` is added, at the end of `compilerOptions` |
| `Scenarios.EnsureCompositeOnFixtureDocument` | src/inject.test.ts:16-57 | The document method, applied to the fixture, gives the same `compilerOptions` with `composite: true` appended |
| `Scenarios.SetReferencesOnFixture` | src/inject.test.ts:60-73 | `["../core", "../common", "mobile"]` become three `{path}` entries in a new last `references` entry |
| `Scenarios.RootStringAddsMissing` | src/inject.test.ts:102-115 | A missing `extends` is added |
| `Scenarios.RootStringReplaces` | src/inject.test.ts:117-131 | An existing `extends` is replaced in place |
| `Scenarios.DeleteOnOmit` | src/index.ts:48-63 | Omitting the new `outDir` deletes it, and a second omission changes nothing |

## Left out

- `readWorkspaceInfoObject` and `execFile` (src/helpers.ts:19-36, 331-345) run `yarn workspaces info` as a subprocess and decode the output. They first parse the JSON string found in the outer object's `data` field, and if that fails they parse the output itself once. The model takes the package list as input, with unique names.
- File I/O (`fs.access`, `readFile`, `writeFile`) is abstracted. The probe is an oracle from the config path to an `AccessResult`, and a document is given as its parsed root property list.
- recast `parse`/`print` are abstracted. Comments, whitespace and byte-level reprinting are not modelled; structure preservation is stated at property level ("same value at the same index").
- The model assumes the root of the file is an object literal with string-literal keys. A root that is not an object, where the source faults on `elements[0].properties`, is not modelled. Neither are identifier keys, which `p.key.value` would not match.
- `path.resolve` and `path.relative` are function parameters without Node's path semantics.
- `pMap` concurrency (limit 4) and the unawaited `applyOnPackage`/`applyTransformationOnTSConfig` promises (unhandled rejections) are left out. `ApplyOnAllPackages` runs the packages one after another and reports failures as flags.
- `applyTransformationOnAllPackages` and `applyTransformationOnTSConfig` (src/helpers.ts:146-177, 284-329) are not modelled separately. They are the same classify-then-edit-each-package driver with an arbitrary transformation; the `Document` methods are the transformations the commands pass to them.
- `Document.TsConfigDocument.SetRootStringProp`: src/helpers.ts does not define it, although src/inject.test.ts:9 imports it. It is modelled as the string rule applied at the root, including delete on `undefined`/`""`. Only add and replace are backed by the tests.
- `wrapAsyncCommand`, `process.exit`, debug logging, console counts and the CLI in src/index.ts are left out.
- `mismatchedWorkspaceDependencies` is carried in `PackageInfo` but, as in the source, never used.
- `TsConfig.SetReferences`: when `references` exists but is not an array, the source assigns `elements` on that node. The model treats this as no visible change, because printing a non-array node ignores `elements`.
