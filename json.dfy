/** The parsed content of a tsconfig file as the editor sees it: JSON-like
    values whose objects are ORDERED property lists, so that an edit can keep
    every untouched property at its place. Keys are looked up by first match,
    as `properties.find(p => p.key.value === name)` does. */
module Json {

  datatype Option<T> = None | Some(value: T)

  /** An edit either produces new content or fails the way the editor would
      throw (`reason` names the structural fault). */
  datatype Result<T> = Ok(value: T) | Err(reason: string)

  /** A value of the document. Number literals are kept as their text: the
      editor never computes with them. */
  datatype Value =
    | Null
    | Bool(b: bool)
    | Num(literal: string)
    | Str(s: string)
    | Arr(elems: seq<Value>)
    | Obj(props: seq<Prop>)

  /** One `"key": value` entry of an object literal. */
  datatype Prop = Prop(key: string, value: Value)

  ghost predicate HasKey(props: seq<Prop>, key: string)
  {
    exists j :: 0 <= j < |props| && props[j].key == key
  }

  /** At most one property carries `key`. */
  ghost predicate UniqueKey(props: seq<Prop>, key: string)
  {
    forall i, j :: 0 <= i < |props| && 0 <= j < |props| && props[i].key == key && props[j].key == key ==> i == j
  }

  /** `a` and `b` have the same length and agree everywhere except possibly at `i`. */
  ghost predicate SameExceptAt(a: seq<Prop>, b: seq<Prop>, i: nat)
  {
    |a| == |b| && i < |a| && forall j :: 0 <= j < |a| && j != i ==> a[j] == b[j]
  }

  /** Index of the first property named `key` (the one `.find` returns). */
  function FirstIndex(props: seq<Prop>, key: string): (r: Option<nat>)
    ensures r.Some? ==> r.value < |props| && props[r.value].key == key
    ensures r.Some? ==> forall j :: 0 <= j < r.value ==> props[j].key != key
    ensures r.None? <==> !HasKey(props, key)
  {
    if props == [] then None
    else if props[0].key == key then Some(0)
    else match FirstIndex(props[1..], key)
      case None =>
        assert forall j :: 1 <= j < |props| ==> props[j] == props[1..][j - 1];
        None
      case Some(j) => Some(j + 1)
  }

  /** The value of the first property named `key`, if any. */
  function Get(props: seq<Prop>, key: string): (r: Option<Value>)
    ensures r.Some? <==> HasKey(props, key)
  {
    match FirstIndex(props, key)
    case Some(j) => Some(props[j].value)
    case None => None
  }

  /** Replaces the value of the first property named `key`, keeping its
      position, or appends `key: v` at the end when there is none. */
  function Upsert(props: seq<Prop>, key: string, v: Value): (r: seq<Prop>)
  {
    match FirstIndex(props, key)
    case Some(j) => props[j := Prop(key, v)]
    case None => props + [Prop(key, v)]
  }

  /** Removes the first property named `key` (`splice(indexOf(found), 1)`);
      the others keep their relative order. */
  function RemoveFirst(props: seq<Prop>, key: string): (r: seq<Prop>)
  {
    match FirstIndex(props, key)
    case Some(j) => props[..j] + props[j + 1..]
    case None => props
  }

  /** The first match is determined by the position of the first `key`. */
  lemma FirstIndexAt(props: seq<Prop>, key: string, j: nat)
    requires j < |props| && props[j].key == key
    requires forall i :: 0 <= i < j ==> props[i].key != key
    ensures FirstIndex(props, key) == Some(j)
  {
    assert HasKey(props, key);
  }

  /** Lookups only see keys: two property lists with the same key at every
      index find the same first index. */
  lemma FirstIndexSameKeys(a: seq<Prop>, b: seq<Prop>, key: string)
    requires |a| == |b|
    requires forall i :: 0 <= i < |a| ==> a[i].key == b[i].key
    ensures FirstIndex(a, key) == FirstIndex(b, key)
  {
    match FirstIndex(a, key)
    case Some(j) => FirstIndexAt(b, key, j);
    case None =>
      forall j | 0 <= j < |b| ensures b[j].key != key {
        assert a[j].key != key;
      }
  }

  /** A lookup of a key other than the one updated at `i` is unaffected. */
  lemma GetSameExceptAt(a: seq<Prop>, b: seq<Prop>, i: nat, key: string)
    requires SameExceptAt(a, b, i) && a[i].key == b[i].key
    requires a[i].key != key
    ensures Get(b, key) == Get(a, key)
  {
    FirstIndexSameKeys(a, b, key);
  }

  /** Appending a property named differently does not change a lookup. */
  lemma GetAppend(a: seq<Prop>, x: Prop, key: string)
    requires x.key != key
    ensures Get(a + [x], key) == Get(a, key)
  {
    var b := a + [x];
    match FirstIndex(a, key)
    case Some(j) => FirstIndexAt(b, key, j);
    case None =>
      forall j | 0 <= j < |b| ensures b[j].key != key {
        if j < |a| { assert b[j] == a[j]; }
      }
  }

  /** Prepending a property named differently does not change a lookup. */
  lemma GetPrepend(a: seq<Prop>, x: Prop, key: string)
    requires x.key != key
    ensures Get([x] + a, key) == Get(a, key)
  {
    var b := [x] + a;
    match FirstIndex(a, key)
    case Some(j) => FirstIndexAt(b, key, j + 1);
    case None =>
      forall j | 0 <= j < |b| ensures b[j].key != key {
        if 1 <= j { assert b[j] == a[j - 1]; }
      }
  }

  /** After `Upsert`, `key` reads `v`, every other key reads as before, and
      the list either changed at the old position of `key` alone, which now
      holds the new entry, or grew by exactly the new entry at the end. */
  lemma UpsertSpec(props: seq<Prop>, key: string, v: Value)
    ensures Get(Upsert(props, key, v), key) == Some(v)
    ensures forall k :: k != key ==> Get(Upsert(props, key, v), k) == Get(props, k)
    ensures HasKey(props, key) ==>
      (SameExceptAt(props, Upsert(props, key, v), FirstIndex(props, key).value) &&
       Upsert(props, key, v)[FirstIndex(props, key).value] == Prop(key, v))
    ensures !HasKey(props, key) ==> Upsert(props, key, v) == props + [Prop(key, v)]
  {
    var r := Upsert(props, key, v);
    match FirstIndex(props, key)
    case Some(j) =>
      FirstIndexAt(r, key, j);
      forall k | k != key ensures Get(r, k) == Get(props, k) {
        GetSameExceptAt(props, r, j, k);
      }
    case None =>
      FirstIndexAt(r, key, |props|);
      forall k | k != key ensures Get(r, k) == Get(props, k) {
        GetAppend(props, Prop(key, v), k);
      }
  }

  /** Writing the value a key already reads changes nothing. */
  lemma UpsertPresent(props: seq<Prop>, key: string, v: Value)
    requires Get(props, key) == Some(v)
    ensures Upsert(props, key, v) == props
  {
    var j := FirstIndex(props, key).value;
    assert props[j] == Prop(key, v);
  }

  /** `Upsert` applied twice with the same arguments equals one application. */
  lemma UpsertIdempotent(props: seq<Prop>, key: string, v: Value)
    ensures Upsert(Upsert(props, key, v), key, v) == Upsert(props, key, v)
  {
    UpsertSpec(props, key, v);
    UpsertPresent(Upsert(props, key, v), key, v);
  }

  /** Deleting the entry at `j`, named differently from `key`, keeps the
      lookup of `key`. */
  lemma GetRemoveAt(props: seq<Prop>, j: nat, key: string)
    requires j < |props| && props[j].key != key
    ensures Get(props[..j] + props[j + 1..], key) == Get(props, key)
  {
    var r := props[..j] + props[j + 1..];
    assert forall i :: 0 <= i < j ==> r[i] == props[i];
    assert forall i :: j <= i < |r| ==> r[i] == props[i + 1];
    match FirstIndex(props, key)
    case Some(m) =>
      if m < j {
        FirstIndexAt(r, key, m);
      } else {
        FirstIndexAt(r, key, m - 1);
      }
    case None =>
      forall i | 0 <= i < |r| ensures r[i].key != key {
        if i < j { assert r[i] == props[i]; } else { assert r[i] == props[i + 1]; }
      }
  }

  /** `RemoveFirst` deletes exactly the first entry named `key`, leaves the
      list alone when there is none, and keeps every other lookup. When the
      key occurred at most once it is gone afterwards. */
  lemma RemoveFirstSpec(props: seq<Prop>, key: string)
    ensures !HasKey(props, key) ==> RemoveFirst(props, key) == props
    ensures HasKey(props, key) ==>
      var j := FirstIndex(props, key).value;
      |RemoveFirst(props, key)| == |props| - 1 &&
      (forall i :: 0 <= i < j ==> RemoveFirst(props, key)[i] == props[i]) &&
      (forall i :: j <= i < |props| - 1 ==> RemoveFirst(props, key)[i] == props[i + 1])
    ensures forall k :: k != key ==> Get(RemoveFirst(props, key), k) == Get(props, k)
    ensures UniqueKey(props, key) ==> !HasKey(RemoveFirst(props, key), key)
  {
    var r := RemoveFirst(props, key);
    match FirstIndex(props, key)
    case None =>
    case Some(j) =>
      assert forall i :: 0 <= i < j ==> r[i] == props[i];
      assert forall i :: j <= i < |r| ==> r[i] == props[i + 1];
      forall k | k != key ensures Get(r, k) == Get(props, k) {
        GetRemoveAt(props, j, k);
      }
      if UniqueKey(props, key) {
        forall i | 0 <= i < |r| ensures r[i].key != key {
          if i < j { assert r[i] == props[i]; } else { assert r[i] == props[i + 1]; }
        }
      }
  }
}
