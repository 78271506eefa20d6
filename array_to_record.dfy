/**
 * `toRecord`: like `toMap`, for string keys, building a plain object.
 *
 * The source tests for a repeated key with `key in record`, and the `in`
 * operator also sees the properties a plain object `{}` inherits from
 * `Object.prototype`. A key spelled like one of them is therefore reported as
 * repeated the first time it occurs. `ToRecordAsWritten` models that test;
 * `ToRecord` is the intended behaviour (`toMap` on string keys), which the
 * rest of the model uses.
 */
module ArrayToRecord {
  import opened JsValues
  import opened Status
  import opened Seqs
  import opened ArrayToMap

  /** The property names every plain object inherits from `Object.prototype`. */
  const OBJECT_PROTOTYPE_PROPERTIES: set<string> := {
    "constructor", "hasOwnProperty", "isPrototypeOf", "propertyIsEnumerable",
    "toLocaleString", "toString", "valueOf", "__proto__",
    "__defineGetter__", "__defineSetter__", "__lookupGetter__", "__lookupSetter__"
  }

  /** Position `j` is the first key the source rejects: a repeat or an inherited name. */
  ghost predicate IsFirstRejected(ks: seq<string>, j: int) {
    && 0 <= j < |ks|
    && (ks[j] in ks[..j] || ks[j] in OBJECT_PROTOTYPE_PROPERTIES)
    && Distinct(ks[..j])
    && forall i :: 0 <= i < j ==> ks[i] !in OBJECT_PROTOTYPE_PROPERTIES
  }

  /** The state of the loop as written after `i` steps: also no inherited name so far. */
  ghost predicate RecordedUpTo<T, V>(
    values: seq<T>, keyFunction: (T, nat) -> string, valueFunction: (T, nat) -> V, i: nat, record: map<string, V>)
    requires i <= |values|
  {
    && MappedUpTo(values, keyFunction, valueFunction, i, record)
    && forall a :: 0 <= a < i ==> keyFunction(values[a], a) !in OBJECT_PROTOTYPE_PROPERTIES
  }

  /** A key the `in` test passes is stored. */
  lemma RecordStep<T, V>(
    values: seq<T>, keyFunction: (T, nat) -> string, valueFunction: (T, nat) -> V, i: nat, record: map<string, V>)
    requires i < |values| && RecordedUpTo(values, keyFunction, valueFunction, i, record)
    requires keyFunction(values[i], i) !in record && keyFunction(values[i], i) !in OBJECT_PROTOTYPE_PROPERTIES
    ensures RecordedUpTo(values, keyFunction, valueFunction, i + 1, record[keyFunction(values[i], i) := valueFunction(values[i], i)])
  {
    MapStep(values, keyFunction, valueFunction, i, record);
  }

  /** A key the `in` test fails makes position `i` the first rejected one. */
  lemma RecordRejected<T, V>(
    values: seq<T>, keyFunction: (T, nat) -> string, valueFunction: (T, nat) -> V, i: nat, record: map<string, V>)
    requires i < |values| && RecordedUpTo(values, keyFunction, valueFunction, i, record)
    requires keyFunction(values[i], i) in record || keyFunction(values[i], i) in OBJECT_PROTOTYPE_PROPERTIES
    ensures IsFirstRejected(KeysOf(values, keyFunction), i)
  {
    var ks := KeysOf(values, keyFunction);
    if ks[i] in record {
      MapRepeat(values, keyFunction, valueFunction, i, record);
    }
  }

  /** `toRecord` as written: `key in record` also holds for inherited property names. */
  method ToRecordAsWritten<T, V>(
    values: seq<T>,
    keyFunction: (T, nat) -> string,
    valueFunction: (T, nat) -> V,
    traceback: string
  ) returns (r: StatusOr<map<string, V>, string>)
    ensures IsOk(r) <==>
      Distinct(KeysOf(values, keyFunction)) &&
      forall i :: 0 <= i < |values| ==> keyFunction(values[i], i) !in OBJECT_PROTOTYPE_PROPERTIES
    ensures IsOk(r) ==>
      && r.value.Keys == Elements(KeysOf(values, keyFunction))
      && (forall i :: 0 <= i < |values| ==> r.value[keyFunction(values[i], i)] == valueFunction(values[i], i))
    ensures !IsOk(r) ==> exists j ::
      && IsFirstRejected(KeysOf(values, keyFunction), j)
      && r == FromError(DuplicateKeyMessage(keyFunction(values[j], j)), None, traceback)
  {
    var record: map<string, V> := map[];
    for i := 0 to |values|
      invariant RecordedUpTo(values, keyFunction, valueFunction, i, record)
    {
      var key := keyFunction(values[i], i);
      if key in record || key in OBJECT_PROTOTYPE_PROPERTIES {
        RecordRejected(values, keyFunction, valueFunction, i, record);
        return FromError(DuplicateKeyMessage(key), None, traceback);
      }
      RecordStep(values, keyFunction, valueFunction, i, record);
      record := record[key := valueFunction(values[i], i)];
    }
    MapDone(values, keyFunction, valueFunction, record);
    r := FromValue(record);
  }

  /** `toRecord` as intended: the own keys of the record under construction decide. */
  method ToRecord<T, V>(
    values: seq<T>,
    keyFunction: (T, nat) -> string,
    valueFunction: (T, nat) -> V,
    traceback: string
  ) returns (r: StatusOr<map<string, V>, string>)
    ensures IsOk(r) <==> Distinct(KeysOf(values, keyFunction))
    ensures IsOk(r) ==>
      && r.value.Keys == Elements(KeysOf(values, keyFunction))
      && (forall i :: 0 <= i < |values| ==> r.value[keyFunction(values[i], i)] == valueFunction(values[i], i))
      && |r.value| == |values|
    ensures !IsOk(r) ==> exists j ::
      && IsFirstDuplicate(KeysOf(values, keyFunction), j)
      && r == FromError(DuplicateKeyMessage(keyFunction(values[j], j)), None, traceback)
  {
    r := ToMap(values, keyFunction, valueFunction, (key: string) => key, traceback);
  }

  /**
   * The discrepancy on one input: a single element whose key is
   * "constructor" is reported as a repeated key by the code as written ...
   */
  method ConstructorKeyRejected(traceback: string) returns (r: StatusOr<map<string, string>, string>)
    ensures r == FromError(DuplicateKeyMessage("constructor"), None, traceback)
  {
    var values := ["constructor"];
    var identity := (key: string, i: nat) => key;
    assert KeysOf(values, identity) == ["constructor"];
    assert identity(values[0], 0) == "constructor";
    assert "constructor" in OBJECT_PROTOTYPE_PROPERTIES;
    r := ToRecordAsWritten(values, identity, identity, traceback);
    assert !IsOk(r);
    ghost var j :| IsFirstRejected(KeysOf(values, identity), j)
      && r == FromError(DuplicateKeyMessage(identity(values[j], j)), None, traceback);
    assert j == 0;
  }

  /** ... and accepted by the intended version. */
  method ConstructorKeyAccepted(traceback: string) returns (r: StatusOr<map<string, string>, string>)
    ensures r == Ok(map["constructor" := "constructor"])
  {
    var values := ["constructor"];
    var identity := (key: string, i: nat) => key;
    assert KeysOf(values, identity) == ["constructor"];
    r := ToRecord(values, identity, identity, traceback);
    assert Distinct(KeysOf(values, identity));
    assert r.value.Keys == {"constructor"};
    assert r.value["constructor"] == "constructor";
    assert r.value == map["constructor" := "constructor"];
  }
}
