/** A parsed tsconfig file edited in place, as the toolkit edits the root
    object literal of its syntax tree. Each method performs the source's steps
    (find, unshift, push, splice, value assignment) on the property list and
    is proved equal to the matching edit of module TsConfig. */
module Document {
  import opened Json
  import opened TsConfig

  class TsConfigDocument {
    /** The properties of the root object literal, in source order. */
    var properties: seq<Prop>

    constructor (properties: seq<Prop>)
      ensures this.properties == properties
    {
      this.properties := properties;
    }

    /** `findEnsureCompilerOptions`: returns the position of the first
      `compilerOptions` entry, inserting an empty one in front if needed. */
    method FindEnsureCompilerOptions() returns (index: nat)
      modifies this
      ensures properties == EnsureCompilerOptions(old(properties))
      ensures FirstIndex(properties, CompilerOptions) == Some(index)
    {
      var found := FirstIndex(properties, CompilerOptions);
      if found.None? {
        properties := [Prop(CompilerOptions, Obj([]))] + properties;
        FirstIndexAt(properties, CompilerOptions, 0);
        index := 0;
      } else {
        index := found.value;
      }
    }

    /** `findEnsureProjectReferences`: returns the position of the first
      `references` entry, appending an empty array if needed. */
    method FindEnsureProjectReferences() returns (index: nat)
      modifies this
      ensures properties == EnsureReferences(old(properties))
      ensures FirstIndex(properties, References) == Some(index)
    {
      var found := FirstIndex(properties, References);
      if found.None? {
        properties := properties + [Prop(References, Arr([]))];
        index := |properties| - 1;
        FirstIndexAt(properties, References, index);
      } else {
        index := found.value;
      }
    }

    /** `ensureCompositeProject`. `ok` is false when `compilerOptions` is not
      an object literal, where `ensureCompositeProject` throws a TypeError;
      nothing has changed then. */
    method EnsureCompositeProject() returns (ok: bool)
      modifies this
      ensures ok == EnsureComposite(old(properties)).Ok?
      ensures properties == if ok then EnsureComposite(old(properties)).value else old(properties)
    {
      EnsureCompilerOptionsSpec(properties);
      var i := FindEnsureCompilerOptions();
      if !properties[i].value.Obj? {
        ok := false;
        return;
      }
      var opts := properties[i].value.props;
      ghost var before := opts;
      var found := FirstIndex(opts, Composite);
      if found.None? {
        opts := opts + [Prop(Composite, Bool(true))];
        found := Some(|opts| - 1);
      }
      opts := opts[found.value := Prop(Composite, Bool(true))];
      assert opts == SetCompositeTrue(before);
      properties := properties[i := Prop(CompilerOptions, Obj(opts))];
      ok := true;
    }

    /** `setProjectReferences`: empties the elements of `references` and
      pushes `{path: p}` for each path in turn. */
    method SetProjectReferences(paths: seq<string>)
      modifies this
      ensures properties == SetReferences(old(properties), paths)
    {
      var i := FindEnsureProjectReferences();
      if !properties[i].value.Arr? {
        return;
      }
      ghost var ensured := properties;
      properties := properties[i := Prop(References, Arr([]))];
      for k := 0 to |paths|
        invariant properties == ensured[i := Prop(References, Arr(RefEntries(paths[..k])))]
      {
        var elements := properties[i].value.elems + [RefEntry(paths[k])];
        assert elements == RefEntries(paths[..k + 1]);
        properties := properties[i := Prop(References, Arr(elements))];
      }
      assert paths[..|paths|] == paths;
    }

    /** `setCompilerOptionsStringProp`. `ok` is false when `compilerOptions`
      is not an object literal, where `setCompilerOptionsStringProp` throws a
      TypeError; nothing has changed then. */
    method SetCompilerOptionsStringProp(propName: string, propValue: Option<string>) returns (ok: bool)
      modifies this
      ensures ok == SetCompilerOptionsString(old(properties), propName, propValue).Ok?
      ensures properties ==
        if ok then SetCompilerOptionsString(old(properties), propName, propValue).value else old(properties)
    {
      EnsureCompilerOptionsSpec(properties);
      var i := FindEnsureCompilerOptions();
      if !properties[i].value.Obj? {
        ok := false;
        return;
      }
      var opts := properties[i].value.props;
      opts := SetStringProp(opts, propName, propValue);
      properties := properties[i := Prop(CompilerOptions, Obj(opts))];
      ok := true;
    }

    /** `setRootStringProp`, the root-level string setter used for `extends`.
      src/helpers.ts does not define it, although src/inject.test.ts imports
      it; it is modelled as the string-field rule applied to the root object. */
    method SetRootStringProp(propName: string, propValue: Option<string>)
      modifies this
      ensures properties == SetStringField(old(properties), propName, propValue)
    {
      properties := SetStringProp(properties, propName, propValue);
    }
  }

  /** The steps shared by both string setters on one property list: find,
    push when missing and truthy, then splice out on a falsy value or assign
    the string literal. */
  method SetStringProp(props: seq<Prop>, propName: string, propValue: Option<string>) returns (r: seq<Prop>)
    ensures r == SetStringField(props, propName, propValue)
  {
    r := props;
    var found := FirstIndex(r, propName);
    if found.None? && Truthy(propValue) {
      r := r + [Prop(propName, Str(propValue.value))];
      found := Some(|r| - 1);
    }
    if !Truthy(propValue) {
      if found.Some? {
        var index := found.value;
        r := r[..index] + r[index + 1..];
      }
    } else {
      r := r[found.value := Prop(propName, Str(propValue.value))];
    }
  }
}
