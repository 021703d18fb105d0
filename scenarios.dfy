/** Concrete documents from the toolkit's tests, run through the edits. */
module Scenarios {
  import opened Json
  import opened TsConfig
  import opened Document

  /** The `compilerOptions` of the test fixture, without `composite`. The
      fixture file is not part of this model: the keys are listed in the
      order of the test's snapshot, which sorts them, and the lemmas below
      hold for any order of these keys. */
  function FixtureOptions(): (r: seq<Prop>)
  {
    [ Prop("esModuleInterop", Bool(false)),
      Prop("forceConsistentCasingInFileNames", Bool(true)),
      Prop("isolatedModules", Bool(true)),
      Prop("lib", Arr([Str("es2018")])),
      Prop("module", Str("commonjs")),
      Prop("strict", Bool(true)),
      Prop("target", Str("es2019")),
      Prop("types", Arr([Str("node"), Str("jest")])) ]
  }

  /** Ensuring composite on the fixture only adds `"composite": true` to its
      `compilerOptions`; `include` is untouched. */
  lemma EnsureCompositeOnFixture()
    ensures
      var root := [Prop(CompilerOptions, Obj(FixtureOptions())), Prop("include", Arr([Str("src")]))];
      EnsureComposite(root).Ok? &&
      CompilerOptionsOf(EnsureComposite(root).value) == FixtureOptions() + [Prop(Composite, Bool(true))] &&
      Get(EnsureComposite(root).value, "include") == Some(Arr([Str("src")]))
  {
    var root := [Prop(CompilerOptions, Obj(FixtureOptions())), Prop("include", Arr([Str("src")]))];
    FirstIndexAt(root, CompilerOptions, 0);
    forall j | 0 <= j < |FixtureOptions()| ensures FixtureOptions()[j].key != Composite {
    }
    EnsureCompositeSpec(root);
    FirstIndexAt(root, "include", 1);
  }

  /** The document method does the same to a document object. */
  method EnsureCompositeOnFixtureDocument() returns (doc: TsConfigDocument)
    ensures CompilerOptionsOf(doc.properties) == FixtureOptions() + [Prop(Composite, Bool(true))]
  {
    doc := new TsConfigDocument([Prop(CompilerOptions, Obj(FixtureOptions())), Prop("include", Arr([Str("src")]))]);
    EnsureCompositeOnFixture();
    var ok := doc.EnsureCompositeProject();
  }

  /** `setProjectReferences(ast, ["../core", "../common", "mobile"])` on a
      document without `references` appends the array, in that order. */
  lemma SetReferencesOnFixture()
    ensures
      var root := [Prop(CompilerOptions, Obj(FixtureOptions())), Prop("include", Arr([Str("src")]))];
      SetReferences(root, ["../core", "../common", "mobile"]) ==
        root + [Prop(References, Arr([RefEntry("../core"), RefEntry("../common"), RefEntry("mobile")]))]
  {
    var root := [Prop(CompilerOptions, Obj(FixtureOptions())), Prop("include", Arr([Str("src")]))];
    var paths := ["../core", "../common", "mobile"];
    forall j | 0 <= j < |root| ensures root[j].key != References {
    }
    SetReferencesSpec(root, paths);
    assert RefEntries(paths) == [RefEntry("../core"), RefEntry("../common"), RefEntry("mobile")];
  }

  /** The root-level setter (the string-field rule on the root object) adds
      a missing `extends`. */
  lemma RootStringAddsMissing()
    ensures Get(SetStringField([Prop(CompilerOptions, Obj([])), Prop("include", Arr([]))], "extends", Some("ciao")), "extends")
      == Some(Str("ciao"))
  {
    SetStringFieldSpec([Prop(CompilerOptions, Obj([])), Prop("include", Arr([]))], "extends", Some("ciao"));
  }

  /** The root-level setter replaces an existing `extends` in place. */
  lemma RootStringReplaces()
    ensures
      var root := [Prop(CompilerOptions, Obj([])), Prop("include", Arr([])), Prop("extends", Str("hello"))];
      SetStringField(root, "extends", Some("another_one")) ==
        [Prop(CompilerOptions, Obj([])), Prop("include", Arr([])), Prop("extends", Str("another_one"))]
  {
    var root := [Prop(CompilerOptions, Obj([])), Prop("include", Arr([])), Prop("extends", Str("hello"))];
    FirstIndexAt(root, "extends", 2);
  }

  /** Omitting the value of `outDir` removes it; a second call finds nothing
      and changes nothing. */
  lemma DeleteOnOmit(rest: seq<Prop>)
    requires forall j :: 0 <= j < |rest| ==> rest[j].key != "outDir"
    ensures SetStringField([Prop("outDir", Str("dist"))] + rest, "outDir", None) == rest
    ensures SetStringField(rest, "outDir", None) == rest
  {
    FirstIndexAt([Prop("outDir", Str("dist"))] + rest, "outDir", 0);
    SetStringFieldSpec(rest, "outDir", None);
  }
}
