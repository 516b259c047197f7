/**
 * The helpers of utils.ts the build depends on: the fallback policy of `readJson`, and
 * `removeUndefined`, which turns every `undefined` of the output object graph into `null`
 * before it is MessagePack-encoded.
 */
module Utils {
  import opened Js

  /** What reading and parsing one file of the dataset yields. */
  datatype FileContent<T> =
    | Unreadable        // Deno.readTextFileSync threw (missing file, no permission, ...)
    | Malformed         // JSON.parse threw
    | ParsedNull        // the file holds the JSON literal `null`
    | Parsed(value: T)  // the file holds a value

  /**
   * `readJson(path, schema, fallback)` once the file has been read: the parsed value unless it
   * is `null`, otherwise `fallback ?? null`. It never throws and never yields `undefined`.
   */
  function ReadJson<T>(file: FileContent<T>, fallback: Nullish<T>): (r: Nullish<T>)
    ensures !r.Undefined?
    ensures file.Parsed? ==> r == Defined(file.value)
    ensures !file.Parsed? ==> r == if fallback.Defined? then fallback else Nullish.Null
  {
    match file
    case Parsed(v) => Defined(v)
    case ParsedNull => fallback.OrElse(Nullish.Null)
    case Unreadable => fallback.OrElse(Nullish.Null)
    case Malformed => fallback.OrElse(Nullish.Null)
  }

  /**
   * With a defined fallback (`[]` for the list files) the result is always a value; with none,
   * the result is `null` exactly when the file yields no value (how a missing polyline becomes
   * `null`).
   */
  lemma ReadJsonFallback<T>(file: FileContent<T>, fallback: Nullish<T>)
    ensures fallback.Defined? ==> ReadJson(file, fallback).Defined?
    ensures !fallback.Defined? ==> (ReadJson(file, fallback) == Nullish.Null <==> !file.Parsed?)
  {
  }

  /** A primitive JSON value other than an integer (bigint, string, boolean, fraction); never inspected. */
  type Primitive(==, !new)

  /** A JavaScript value of the output document, as a tree. */
  datatype Json =
    | Undefined
    | Null
    | Number(n: int)
    | Scalar(p: Primitive)
    | Container(isArray: bool, members: seq<Member>)   // an object or an array (its indices are its keys)

  datatype Member = Member(key: string, value: Json)

  /** No slot at any depth holds `undefined`. */
  predicate NoUndefined(j: Json) {
    match j
    case Undefined => false
    case Container(_, members) => forall i :: 0 <= i < |members| ==> NoUndefined(members[i].value)
    case _ => true
  }

  /** Reference definition of `removeUndefined`: every `undefined` slot, at every depth, becomes `null`. */
  function Scrub(j: Json): Json {
    match j
    case Undefined => Json.Null
    case Container(a, members) => Container(a, seq(|members|, i requires 0 <= i < |members| => Member(members[i].key, Scrub(members[i].value))))
    case _ => j
  }

  /**
   * `b` is `a` with some `undefined` slots replaced by `null`: the same keys in the same order at
   * every depth, the same scalars and `null`s.
   */
  predicate OnlyUndefinedReplaced(a: Json, b: Json) {
    match a
    case Undefined => b.Undefined? || b.Null?
    case Container(k, members) =>
      && b.Container? && b.isArray == k && |b.members| == |members|
      && forall i :: 0 <= i < |members| ==>
           b.members[i].key == members[i].key && OnlyUndefinedReplaced(members[i].value, b.members[i].value)
    case _ => b == a
  }

  /** `Scrub` leaves no `undefined` anywhere and changes nothing else. */
  lemma {:induction false} ScrubSound(j: Json)
    ensures NoUndefined(Scrub(j))
    ensures OnlyUndefinedReplaced(j, Scrub(j))
  {
    match j
    case Container(a, members) =>
      forall i | 0 <= i < |members| ensures NoUndefined(Scrub(members[i].value)) && OnlyUndefinedReplaced(members[i].value, Scrub(members[i].value)) {
        ScrubSound(members[i].value);
      }
    case _ =>
  }

  /**
   * Conversely, the only way to replace `undefined` by `null` so that none is left is `Scrub`:
   * the two descriptions of `removeUndefined` agree.
   */
  lemma {:induction false} ScrubUnique(a: Json, b: Json)
    requires OnlyUndefinedReplaced(a, b) && NoUndefined(b)
    ensures b == Scrub(a)
  {
    match a
    case Container(k, members) =>
      forall i | 0 <= i < |members| ensures b.members[i] == Scrub(a).members[i] {
        ScrubUnique(members[i].value, b.members[i].value);
      }
    case _ =>
  }

  /** A value without `undefined` is left as it is, so a second `removeUndefined` changes nothing. */
  lemma {:induction false} ScrubIdempotent(j: Json)
    ensures NoUndefined(j) ==> Scrub(j) == j
    ensures Scrub(Scrub(j)) == Scrub(j)
  {
    match j
    case Container(a, members) =>
      forall i | 0 <= i < |members| ensures Scrub(Scrub(members[i].value)) == Scrub(members[i].value)
                                     && (NoUndefined(j) ==> Scrub(members[i].value) == members[i].value) {
        ScrubIdempotent(members[i].value);
      }
    case _ =>
  }

  /** What an object slot holds: `undefined`, `null`, an integer, another primitive, or a reference to a nested object or array. */
  datatype Slot = UndefinedSlot | NullSlot | NumberSlot(n: int) | ScalarSlot(p: Primitive) | ObjectSlot(obj: JsObject)

  /**
   * A JavaScript object or array of the output document, updated in place. Its keys are fixed
   * (`removeUndefined` only assigns existing keys); `Repr` is the object and everything reachable
   * from it. The document is a tree: no object is reachable along two paths.
   */
  class JsObject {
    const isArray: bool
    const keys: seq<string>
    var slots: seq<Slot>
    ghost var Repr: set<object>

    ghost predicate Valid()
      reads this, Repr
      decreases Repr
    {
      && this in Repr
      && |slots| == |keys|
      && (forall i :: 0 <= i < |slots| && slots[i].ObjectSlot? ==>
            && slots[i].obj in Repr
            && slots[i].obj.Repr <= Repr
            && this !in slots[i].obj.Repr
            && slots[i].obj.Valid())
      && (forall i, j :: 0 <= i < j < |slots| && slots[i].ObjectSlot? && slots[j].ObjectSlot? ==>
            slots[i].obj.Repr !! slots[j].obj.Repr)
    }

    /** The value held under `keys[i]`. */
    ghost function SlotModel(i: int): Json
      reads this, Repr
      requires Valid() && 0 <= i < |slots|
      decreases Repr, 0
    {
      match slots[i]
      case UndefinedSlot => Json.Undefined
      case NullSlot => Json.Null
      case NumberSlot(n) => Number(n)
      case ScalarSlot(p) => Scalar(p)
      case ObjectSlot(c) => c.Model()
    }

    /** The object graph read as a value. */
    ghost function Model(): Json
      reads this, Repr
      requires Valid()
      decreases Repr, 1
    {
      Container(isArray, seq(|slots|, i requires 0 <= i < |slots| && Valid() reads this, Repr => Member(keys[i], SlotModel(i))))
    }
  }

  /**
   * `removeUndefined(obj)`: every key is visited; an `undefined` slot is overwritten with `null`
   * and a nested object or array is cleaned recursively and stored back. The argument itself is
   * returned, with no object added or dropped, and what it now holds is `Scrub` of what it held.
   */
  method RemoveUndefined(obj: JsObject) returns (r: JsObject)
    requires obj.Valid()
    modifies obj.Repr
    ensures r == obj
    ensures obj.Valid() && obj.Repr == old(obj.Repr)
    ensures obj.Model() == Scrub(old(obj.Model()))
    decreases obj.Repr
  {
    ghost var before := obj.Model();
    var i := 0;
    while i < |obj.slots|
      invariant 0 <= i <= |obj.slots| == |before.members|
      invariant obj.Valid() && obj.Repr == old(obj.Repr)
      invariant forall j :: 0 <= j < i ==> obj.SlotModel(j) == Scrub(before.members[j].value)
      invariant forall j :: i <= j < |obj.slots| ==> obj.SlotModel(j) == before.members[j].value
      invariant forall o :: o in obj.Repr ==> o in old(obj.Repr)
    {
      CleanSlot(obj, i);
      i := i + 1;
    }
    assert obj.Model().members == Scrub(before).members;
    return obj;
  }

  /** One turn of the `for...in` loop: the slot under `keys[i]` is cleaned, and no other slot changes. */
  method CleanSlot(obj: JsObject, i: int)
    requires obj.Valid() && 0 <= i < |obj.slots|
    modifies obj.Repr
    ensures obj.Valid() && obj.Repr == old(obj.Repr) && |obj.slots| == old(|obj.slots|)
    ensures obj.SlotModel(i) == Scrub(old(obj.SlotModel(i)))
    ensures forall j :: 0 <= j < |obj.slots| && j != i ==> obj.SlotModel(j) == old(obj.SlotModel(j))
    decreases obj.Repr, 0
  {
    match obj.slots[i]
    case UndefinedSlot =>
      obj.slots := obj.slots[i := NullSlot];
    case ObjectSlot(c) =>
      var cleaned := RemoveUndefined(c);
      obj.slots := obj.slots[i := ObjectSlot(cleaned)];
    case _ =>
  }

}
