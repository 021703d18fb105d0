/** The edits the toolkit makes to a tsconfig document, as functions of the
    root object's property list. Each edit touches one field; the lemmas say
    what that field holds afterwards and that every other property keeps its
    value and its place. */
module TsConfig {
  import opened Json

  const CompilerOptions := "compilerOptions"
  const References := "references"
  const Composite := "composite"
  const PathKey := "path"

  /** JavaScript truthiness of an optional string: `undefined` and `""` are falsy. */
  predicate Truthy(value: Option<string>)
  {
    value.Some? && value.value != ""
  }

  /** The `compilerOptions` object of the root, or none when it is missing or
      is not an object literal. */
  function CompilerOptionsOf(root: seq<Prop>): (r: seq<Prop>)
  {
    match Get(root, CompilerOptions)
    case Some(Obj(opts)) => opts
    case _ => []
  }

  /** `compilerOptions` is missing or is an object literal: the cases in which
      `compilerOptions.value.properties` exists. */
  predicate CompilerOptionsEditable(root: seq<Prop>)
  {
    Get(root, CompilerOptions).None? || Get(root, CompilerOptions).value.Obj?
  }

  // ---------------------------------------------------------------------
  // findEnsureCompilerOptions / findEnsureProjectReferences

  /** The root after `findEnsureCompilerOptions`: unchanged when a
      `compilerOptions` entry exists, otherwise with an empty one in front. */
  function EnsureCompilerOptions(root: seq<Prop>): (r: seq<Prop>)
    ensures HasKey(r, CompilerOptions)
  {
    if FirstIndex(root, CompilerOptions).Some? then root
    else
      var r := [Prop(CompilerOptions, Obj([]))] + root;
      assert r[0].key == CompilerOptions;
      r
  }

  /** The root after `findEnsureProjectReferences`: unchanged when a
      `references` entry exists, otherwise with an empty array at the end. */
  function EnsureReferences(root: seq<Prop>): (r: seq<Prop>)
    ensures HasKey(r, References)
  {
    if FirstIndex(root, References).Some? then root
    else
      var r := root + [Prop(References, Arr([]))];
      assert r[|root|].key == References;
      r
  }

  lemma EnsureCompilerOptionsSpec(root: seq<Prop>)
    ensures HasKey(root, CompilerOptions) ==> EnsureCompilerOptions(root) == root
    ensures !HasKey(root, CompilerOptions) ==>
      var r := EnsureCompilerOptions(root);
      |r| == |root| + 1 && r[0] == Prop(CompilerOptions, Obj([])) &&
      FirstIndex(r, CompilerOptions) == Some(0) &&
      forall j :: 0 <= j < |root| ==> r[j + 1] == root[j]
    ensures Get(EnsureCompilerOptions(root), CompilerOptions) ==
      if HasKey(root, CompilerOptions) then Get(root, CompilerOptions) else Some(Obj([]))
    ensures forall k :: k != CompilerOptions ==> Get(EnsureCompilerOptions(root), k) == Get(root, k)
  {
    var r := EnsureCompilerOptions(root);
    if !HasKey(root, CompilerOptions) {
      FirstIndexAt(r, CompilerOptions, 0);
      forall k | k != CompilerOptions ensures Get(r, k) == Get(root, k) {
        GetPrepend(root, Prop(CompilerOptions, Obj([])), k);
      }
    }
  }

  lemma EnsureReferencesSpec(root: seq<Prop>)
    ensures HasKey(root, References) ==> EnsureReferences(root) == root
    ensures !HasKey(root, References) ==>
      var r := EnsureReferences(root);
      r == root + [Prop(References, Arr([]))] && FirstIndex(r, References) == Some(|root|)
    ensures Get(EnsureReferences(root), References) ==
      if HasKey(root, References) then Get(root, References) else Some(Arr([]))
    ensures forall k :: k != References ==> Get(EnsureReferences(root), k) == Get(root, k)
  {
    var r := EnsureReferences(root);
    if !HasKey(root, References) {
      FirstIndexAt(r, References, |root|);
      forall k | k != References ensures Get(r, k) == Get(root, k) {
        GetAppend(root, Prop(References, Arr([])), k);
      }
    }
  }

  // ---------------------------------------------------------------------
  // Edits inside compilerOptions

  /** Ensures `compilerOptions`, then applies `edit` to its property list.
      Fails, changing nothing, when `compilerOptions` is present but is not an
      object literal (`ensureCompositeProject` and `setCompilerOptionsStringProp`
      then throw a TypeError on `.value.properties.find`). */
  function EditCompilerOptions(root: seq<Prop>, edit: seq<Prop> -> seq<Prop>): (r: Result<seq<Prop>>)
    ensures r.Ok? <==> CompilerOptionsEditable(root)
  {
    EnsureCompilerOptionsSpec(root);
    var co := EnsureCompilerOptions(root);
    var i := FirstIndex(co, CompilerOptions).value;
    match co[i].value
    case Obj(opts) => Ok(co[i := Prop(CompilerOptions, Obj(edit(opts)))])
    case _ => Err("compilerOptions is not an object literal")
  }

  /** What `EditCompilerOptions` does: `compilerOptions` becomes the edited
      list, the root changes only at that entry (after the front insertion of
      an empty `compilerOptions` when there was none), and every other root
      key reads as before. */
  lemma EditCompilerOptionsSpec(root: seq<Prop>, edit: seq<Prop> -> seq<Prop>)
    requires CompilerOptionsEditable(root)
    ensures
      var r := EditCompilerOptions(root, edit).value;
      var co := EnsureCompilerOptions(root);
      var i := FirstIndex(co, CompilerOptions).value;
      SameExceptAt(co, r, i) && r[i] == Prop(CompilerOptions, Obj(edit(CompilerOptionsOf(root)))) &&
      FirstIndex(r, CompilerOptions) == Some(i)
    ensures Get(EditCompilerOptions(root, edit).value, CompilerOptions) == Some(Obj(edit(CompilerOptionsOf(root))))
    ensures CompilerOptionsOf(EditCompilerOptions(root, edit).value) == edit(CompilerOptionsOf(root))
    ensures forall k :: k != CompilerOptions ==> Get(EditCompilerOptions(root, edit).value, k) == Get(root, k)
  {
    EnsureCompilerOptionsSpec(root);
    var r := EditCompilerOptions(root, edit).value;
    var co := EnsureCompilerOptions(root);
    var i := FirstIndex(co, CompilerOptions).value;
    FirstIndexSameKeys(co, r, CompilerOptions);
    forall k | k != CompilerOptions ensures Get(r, k) == Get(root, k) {
      GetSameExceptAt(co, r, i, k);
    }
  }

  /** An edit that leaves the current `compilerOptions` list as it is leaves
      the whole document as it is. */
  lemma EditCompilerOptionsNoop(root: seq<Prop>, edit: seq<Prop> -> seq<Prop>)
    requires HasKey(root, CompilerOptions) && Get(root, CompilerOptions).value.Obj?
    requires edit(CompilerOptionsOf(root)) == CompilerOptionsOf(root)
    ensures EditCompilerOptions(root, edit) == Ok(root)
  {
    EnsureCompilerOptionsSpec(root);
    assert EnsureCompilerOptions(root) == root;
    var i := FirstIndex(root, CompilerOptions).value;
    var opts := CompilerOptionsOf(root);
    assert root[i] == Prop(CompilerOptions, Obj(opts));
    assert root[i := Prop(CompilerOptions, Obj(edit(opts)))] == root;
  }

  /** `compositeProp.value = true`, adding the property when missing. */
  function SetCompositeTrue(opts: seq<Prop>): (r: seq<Prop>)
  {
    Upsert(opts, Composite, Bool(true))
  }

  /** The root after `ensureCompositeProject`. */
  function EnsureComposite(root: seq<Prop>): (r: Result<seq<Prop>>)
  {
    EditCompilerOptions(root, SetCompositeTrue)
  }

  /** `ensureCompositeProject` succeeds exactly when `compilerOptions` is
      missing or an object. Then `compilerOptions.composite` reads `true`;
      every other option reads as before; the options list changed only at
      the old `composite` entry, which now holds `composite: true`, or else grew by `composite: true` at its end
      (the only line the test snapshot adds); and every other root key reads
      as before. */
  lemma EnsureCompositeSpec(root: seq<Prop>)
    ensures EnsureComposite(root).Ok? <==> CompilerOptionsEditable(root)
    ensures EnsureComposite(root).Ok? ==>
      var opts := CompilerOptionsOf(root);
      var opts' := CompilerOptionsOf(EnsureComposite(root).value);
      Get(opts', Composite) == Some(Bool(true)) &&
      (forall k :: k != Composite ==> Get(opts', k) == Get(opts, k)) &&
      (HasKey(opts, Composite) ==>
        (SameExceptAt(opts, opts', FirstIndex(opts, Composite).value) &&
         opts'[FirstIndex(opts, Composite).value] == Prop(Composite, Bool(true)))) &&
      (!HasKey(opts, Composite) ==> opts' == opts + [Prop(Composite, Bool(true))]) &&
      (forall k :: k != CompilerOptions ==> Get(EnsureComposite(root).value, k) == Get(root, k))
  {
    if CompilerOptionsEditable(root) {
      EditCompilerOptionsSpec(root, SetCompositeTrue);
      UpsertSpec(CompilerOptionsOf(root), Composite, Bool(true));
    }
  }

  /** A document whose `compilerOptions` object already reads
      `composite: true` is a fixed point of `ensureCompositeProject`. */
  lemma EnsureCompositeFixpoint(root: seq<Prop>)
    requires HasKey(root, CompilerOptions) && Get(root, CompilerOptions).value.Obj?
    requires Get(CompilerOptionsOf(root), Composite) == Some(Bool(true))
    ensures EnsureComposite(root) == Ok(root)
  {
    UpsertPresent(CompilerOptionsOf(root), Composite, Bool(true));
    EditCompilerOptionsNoop(root, SetCompositeTrue);
  }

  /** `ensureCompositeProject` is idempotent. */
  lemma EnsureCompositeIdempotent(root: seq<Prop>)
    requires EnsureComposite(root).Ok?
    ensures EnsureComposite(EnsureComposite(root).value) == EnsureComposite(root)
  {
    EnsureCompositeSpec(root);
    EditCompilerOptionsSpec(root, SetCompositeTrue);
    EnsureCompositeFixpoint(EnsureComposite(root).value);
  }

  // ---------------------------------------------------------------------
  // setProjectReferences

  /** One project reference, `{ "path": p }`. */
  function RefEntry(path: string): (r: Value)
  {
    Obj([Prop(PathKey, Str(path))])
  }

  /** The reference entries for `paths`, in order. */
  function RefEntries(paths: seq<string>): (r: seq<Value>)
    ensures |r| == |paths|
  {
    seq(|paths|, k requires 0 <= k < |paths| => RefEntry(paths[k]))
  }

  /** The root after `setProjectReferences(paths)`: the `references` array is
      ensured and its elements replaced. A `references` entry that is not an
      array is left as it is (the assignment to `elements` does not show in
      a non-array node). */
  function SetReferences(root: seq<Prop>, paths: seq<string>): (r: seq<Prop>)
  {
    EnsureReferencesSpec(root);
    var rs := EnsureReferences(root);
    var i := FirstIndex(rs, References).value;
    if rs[i].value.Arr? then rs[i := Prop(References, Arr(RefEntries(paths)))] else rs
  }

  /** `references` is missing or an array. */
  predicate ReferencesEditable(root: seq<Prop>)
  {
    Get(root, References).None? || Get(root, References).value.Arr?
  }

  /** After `setProjectReferences(paths)`, `references` holds exactly
      `{path: paths[0]}, ..., {path: paths[n-1]}` (old elements are gone);
      the root is unchanged except at the `references` entry, which is either
      the old one's place or a new last entry; every other key reads as
      before. */
  lemma SetReferencesSpec(root: seq<Prop>, paths: seq<string>)
    ensures ReferencesEditable(root) ==>
      Get(SetReferences(root, paths), References) == Some(Arr(RefEntries(paths)))
    ensures !ReferencesEditable(root) ==> SetReferences(root, paths) == root
    ensures HasKey(root, References) ==>
      SameExceptAt(root, SetReferences(root, paths), FirstIndex(root, References).value)
    ensures HasKey(root, References) && ReferencesEditable(root) ==>
      (SameExceptAt(root, SetReferences(root, paths), FirstIndex(root, References).value) &&
       SetReferences(root, paths)[FirstIndex(root, References).value] == Prop(References, Arr(RefEntries(paths))))
    ensures !HasKey(root, References) ==>
      var r := SetReferences(root, paths);
      |r| == |root| + 1 && r[..|root|] == root && r[|root|] == Prop(References, Arr(RefEntries(paths)))
    ensures forall k :: k != References ==> Get(SetReferences(root, paths), k) == Get(root, k)
  {
    EnsureReferencesSpec(root);
    var rs := EnsureReferences(root);
    var i := FirstIndex(rs, References).value;
    var r := SetReferences(root, paths);
    if rs[i].value.Arr? {
      FirstIndexSameKeys(rs, r, References);
      forall k | k != References ensures Get(r, k) == Get(rs, k) {
        GetSameExceptAt(rs, r, i, k);
      }
    }
  }

  /** `setProjectReferences` always fully replaces: a second call with any
      paths forgets the first, so repeating a call is a no-op. */
  lemma SetReferencesLastWins(root: seq<Prop>, first: seq<string>, paths: seq<string>)
    ensures SetReferences(SetReferences(root, first), paths) == SetReferences(root, paths)
  {
    EnsureReferencesSpec(root);
    var rs := EnsureReferences(root);
    var i := FirstIndex(rs, References).value;
    var r1 := SetReferences(root, first);
    if rs[i].value.Arr? {
      FirstIndexSameKeys(rs, r1, References);
      assert EnsureReferences(r1) == r1;
    } else {
      assert r1 == rs;
    }
  }

  lemma SetReferencesIdempotent(root: seq<Prop>, paths: seq<string>)
    ensures SetReferences(SetReferences(root, paths), paths) == SetReferences(root, paths)
  {
    SetReferencesLastWins(root, paths, paths);
  }

  // ---------------------------------------------------------------------
  // String options: setCompilerOptionsStringProp and the root-level setter

  /** Sets `key` to a string, overwriting the first entry in place or
      appending one, when `value` is truthy; deletes the first entry named
      `key` when it is `undefined` or `""`. */
  function SetStringField(props: seq<Prop>, key: string, value: Option<string>): (r: seq<Prop>)
  {
    if Truthy(value) then Upsert(props, key, Str(value.value)) else RemoveFirst(props, key)
  }

  /** The string-field rule, stated per case: a truthy value is read back at
      the old position of `key` or in a new last entry; a falsy one removes
      the first `key` entry and keeps the rest in order, or changes nothing
      when there is no such entry; no other key's reading changes. */
  lemma SetStringFieldSpec(props: seq<Prop>, key: string, value: Option<string>)
    ensures Truthy(value) ==> Get(SetStringField(props, key, value), key) == Some(Str(value.value))
    ensures Truthy(value) && HasKey(props, key) ==>
      (SameExceptAt(props, SetStringField(props, key, value), FirstIndex(props, key).value) &&
       SetStringField(props, key, value)[FirstIndex(props, key).value] == Prop(key, Str(value.value)))
    ensures Truthy(value) && !HasKey(props, key) ==>
      SetStringField(props, key, value) == props + [Prop(key, Str(value.value))]
    ensures !Truthy(value) && HasKey(props, key) ==>
      var j := FirstIndex(props, key).value;
      SetStringField(props, key, value) == props[..j] + props[j + 1..]
    ensures !Truthy(value) && !HasKey(props, key) ==> SetStringField(props, key, value) == props
    ensures !Truthy(value) && UniqueKey(props, key) ==> !HasKey(SetStringField(props, key, value), key)
    ensures forall k :: k != key ==> Get(SetStringField(props, key, value), k) == Get(props, k)
  {
    if Truthy(value) {
      UpsertSpec(props, key, Str(value.value));
    } else {
      RemoveFirstSpec(props, key);
    }
  }

  /** Repeating the same string-field edit is a no-op; for a delete this
      needs the key to occur at most once (otherwise the second call deletes
      the next duplicate). */
  lemma SetStringFieldIdempotent(props: seq<Prop>, key: string, value: Option<string>)
    requires Truthy(value) || UniqueKey(props, key)
    ensures SetStringField(SetStringField(props, key, value), key, value) == SetStringField(props, key, value)
  {
    if Truthy(value) {
      UpsertIdempotent(props, key, Str(value.value));
    } else {
      RemoveFirstSpec(props, key);
      RemoveFirstSpec(RemoveFirst(props, key), key);
    }
  }

  /** The string-field edit as a value that can be passed to
      `EditCompilerOptions`. */
  function StringFieldEdit(key: string, value: Option<string>): (r: seq<Prop> -> seq<Prop>)
  {
    opts => SetStringField(opts, key, value)
  }

  /** The root after `setCompilerOptionsStringProp(key, value)`. */
  function SetCompilerOptionsString(root: seq<Prop>, key: string, value: Option<string>): (r: Result<seq<Prop>>)
  {
    EditCompilerOptions(root, StringFieldEdit(key, value))
  }

  /** `setCompilerOptionsStringProp`: `compilerOptions` is ensured in every
      case; its list is edited by the string-field rule; deleting an absent
      key leaves the document exactly as `findEnsureCompilerOptions` left it;
      every other root key reads as before. */
  lemma SetCompilerOptionsStringSpec(root: seq<Prop>, key: string, value: Option<string>)
    ensures SetCompilerOptionsString(root, key, value).Ok? <==> CompilerOptionsEditable(root)
    ensures SetCompilerOptionsString(root, key, value).Ok? ==>
      var r := SetCompilerOptionsString(root, key, value).value;
      CompilerOptionsOf(r) == SetStringField(CompilerOptionsOf(root), key, value) &&
      (forall k :: k != CompilerOptions ==> Get(r, k) == Get(root, k))
    ensures (SetCompilerOptionsString(root, key, value).Ok? && !Truthy(value) &&
             !HasKey(CompilerOptionsOf(root), key)) ==>
      SetCompilerOptionsString(root, key, value).value == EnsureCompilerOptions(root)
  {
    if CompilerOptionsEditable(root) {
      EditCompilerOptionsSpec(root, StringFieldEdit(key, value));
      if !Truthy(value) && !HasKey(CompilerOptionsOf(root), key) {
        SetStringFieldSpec(CompilerOptionsOf(root), key, value);
        EnsureCompilerOptionsSpec(root);
        var co := EnsureCompilerOptions(root);
        var i := FirstIndex(co, CompilerOptions).value;
        assert co[i] == Prop(CompilerOptions, Obj(CompilerOptionsOf(root)));
      }
    }
  }


  // ---------------------------------------------------------------------
  // Wrapping the file text in `[...]` for the script parser

  /** `[${tsconfigContent}]` */
  function Wrap(text: string): (r: string)
  {
    "[" + text + "]"
  }

  /** `code.substring(1).slice(0, -1)`, with JavaScript's clamping on short strings. */
  function Unwrap(code: string): (r: string)
  {
    var tail := if |code| >= 1 then code[1..] else [];
    if |tail| >= 1 then tail[..|tail| - 1] else []
  }

  /** Stripping the first and last character undoes the wrapping. */
  lemma UnwrapWrap(text: string)
    ensures Unwrap(Wrap(text)) == text
  {
    assert Wrap(text)[1..] == text + "]";
  }
}
