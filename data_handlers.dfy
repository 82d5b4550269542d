/**
 * Jest.ts, classes `A` and `B` over `BaseClass`: a plain JavaScript object
 * with `key_N` auto-keys, and the array under its `d` property with
 * bounds-checked add, replace and remove, plus `B`'s two element-wise
 * conversions.
 *
 * The object is a map from property names to values. Every operation is
 * first a function on that map; the `Handler` class is proved against those
 * functions, and the lemmas at the end are about them.
 */
module DataHandlers {
  import opened Results
  import opened JsText
  import opened JsArrays

  /** The JavaScript values the handlers store: primitives, arrays and plain objects. */
  datatype Value =
    | Undefined
    | Null
    | Bool(b: bool)
    | Num(n: real)
    | Str(s: string)
    | Arr(items: seq<Value>)
    | Obj(fields: map<string, Value>)

  /** The one error the array operations can throw: a property or method looked up on the wrong kind of value. */
  datatype HandlerError = TypeError

  /** A handler's object: its own properties and their values. */
  type Props = map<string, Value>

  /** The properties every plain object inherits from `Object.prototype`, which `key in obj` also sees. */
  const InheritedKeys: set<string> := {
    "constructor", "hasOwnProperty", "isPrototypeOf", "propertyIsEnumerable",
    "toLocaleString", "toString", "valueOf",
    "__defineGetter__", "__defineSetter__", "__lookupGetter__", "__lookupSetter__"
  }

  /** `key in obj`: an own property or an inherited one. */
  predicate HasKey(obj: Props, key: string) {
    key in obj || key in InheritedKeys
  }

  /** `obj.d`: the value of the own property, or `undefined`. */
  function DValue(obj: Props): Value {
    if "d" in obj then obj["d"] else Undefined
  }

  /** The object `BaseClass`'s constructor builds. */
  function BaseObject(): Props {
    map["a" := Num(0.0), "b" := Str(""), "c" := Obj(map[]), "d" := Arr([])]
  }

  /** An `ITypedArrayElement`, as the object literal that builds it. */
  function Element(a: bool, b: real, c: string): Value {
    Obj(map["a" := Bool(a), "b" := Num(b), "c" := Str(c)])
  }

  /** The object after `B`'s constructor has set its four fields. */
  function BObject(): Props {
    BaseObject()["a" := Num(1.0)]["b" := Str("B-class")]["c" := Obj(map[])]
      ["d" := Arr([Element(true, 10.0, "x"), Element(false, 20.0, "y")])]
  }

  // ---------------------------------------------------------------------
  // The object operations
  // ---------------------------------------------------------------------

  /** The key `create` writes: `key_` and the number of own properties. */
  function CreateKey(obj: Props): string {
    "key_" + NatToString(|obj|)
  }

  /** `create`. */
  function CreateSpec(obj: Props, value: Value): Props {
    obj[CreateKey(obj) := value]
  }

  /** `update`: writes only when `key in obj`, which includes the inherited names. */
  function UpdateSpec(obj: Props, key: string, value: Value): Props {
    if HasKey(obj, key) then obj[key := value] else obj
  }

  /** `delete`: removes an own property; `delete` of an inherited or absent one removes nothing. */
  function DeleteSpec(obj: Props, key: string): Props {
    if HasKey(obj, key) then obj - {key} else obj
  }

  // ---------------------------------------------------------------------
  // The array operations on `obj.d`
  // ---------------------------------------------------------------------

  /**
   * `arr.length` as the bounds checks see it, after `<` converts it to a
   * number: `true` is 1, `false` and `null` are 0; `None` stands for NaN
   * (`undefined`, an object), which no comparison satisfies.
   */
  function LengthOf(v: Value): Option<real> {
    match v
    case Arr(xs) => Some(|xs| as real)
    case Str(s) => Some(|s| as real)
    case Obj(m) =>
      if "length" !in m then None
      else (match m["length"]
        case Num(n) => Some(n)
        case Bool(b) => Some(if b then 1.0 else 0.0)
        case Null => Some(0.0)
        case _ => None)
    case _ => None
  }

  /** `index >= 0 && index < arr.length`, with `arr.length` looked up only once `index >= 0` holds. */
  function InBounds(index: int, arr: Value): Result<bool, HandlerError> {
    if index < 0 then Success(false)
    else if arr.Undefined? || arr.Null? then Failure(TypeError)
    else Success(LengthOf(arr).Some? && (index as real) < LengthOf(arr).value)
  }

  /** `add`: `obj.d.push(item)`, which only an array has. */
  function AddSpec(obj: Props, item: Value): Result<Props, HandlerError> {
    match DValue(obj)
    case Arr(xs) => Success(obj["d" := Arr(xs + [item])])
    case _ => Failure(TypeError)
  }

  /** `remove`: `splice(index, 1)` within the bounds, nothing outside them. */
  function RemoveSpec(obj: Props, index: int): Result<Props, HandlerError> {
    var arr := DValue(obj);
    var inBounds :- InBounds(index, arr);
    if !inBounds then Success(obj)
    else match arr
      case Arr(xs) => Success(obj["d" := Arr(RemoveAt(xs, index))])
      case _ => Failure(TypeError)
  }

  /** `updateItem`: `arr[index] = value` within the bounds, nothing outside them. */
  function UpdateItemSpec(obj: Props, index: int, value: Value): Result<Props, HandlerError> {
    var arr := DValue(obj);
    var inBounds :- InBounds(index, arr);
    if !inBounds then Success(obj)
    else match arr
      case Arr(xs) => Success(obj["d" := Arr(xs[index := value])])
      case Obj(m) => Success(obj["d" := Obj(m[NatToString(index) := value])])
      case _ => Failure(TypeError)
  }

  // ---------------------------------------------------------------------
  // `B`'s conversions
  // ---------------------------------------------------------------------

  /** `el.name`: an own property of an object, `undefined` on anything else; on `null` or `undefined` it throws. */
  function Field(el: Value, name: string): Result<Value, HandlerError> {
    match el
    case Undefined => Failure(TypeError)
    case Null => Failure(TypeError)
    case Obj(m) => Success(if name in m then m[name] else Undefined)
    case _ => Success(Undefined)
  }

  /** JavaScript truthiness (`NaN` aside). */
  predicate Truthy(v: Value) {
    match v
    case Undefined => false
    case Null => false
    case Bool(b) => b
    case Num(n) => n != 0.0
    case Str(s) => s != ""
    case _ => true
  }

  /** `el => (el.a ? 1 : 0)` over a sequence of elements. */
  function FlagsOf(xs: seq<Value>): (r: Result<seq<nat>, HandlerError>)
    ensures r.Success? ==> |r.value| == |xs|
    ensures r.Success? <==> forall i :: 0 <= i < |xs| ==> !xs[i].Undefined? && !xs[i].Null?
    ensures r.Success? ==> forall i :: 0 <= i < |xs| ==>
      (r.value[i] == 1 <==> Truthy(Field(xs[i], "a").value)) && r.value[i] <= 1
  {
    if xs == [] then Success([])
    else
      var init := xs[..|xs| - 1];
      assert forall i :: 0 <= i < |init| ==> init[i] == xs[i];
      var head :- FlagsOf(init);
      var a :- Field(xs[|xs| - 1], "a");
      Success(head + [if Truthy(a) then 1 else 0])
  }

  /** `el => el.b !== 0` over a sequence of elements. */
  function NonZerosOf(xs: seq<Value>): (r: Result<seq<bool>, HandlerError>)
    ensures r.Success? ==> |r.value| == |xs|
    ensures r.Success? <==> forall i :: 0 <= i < |xs| ==> !xs[i].Undefined? && !xs[i].Null?
    ensures r.Success? ==> forall i :: 0 <= i < |xs| ==> (r.value[i] <==> Field(xs[i], "b").value != Num(0.0))
  {
    if xs == [] then Success([])
    else
      var init := xs[..|xs| - 1];
      assert forall i :: 0 <= i < |init| ==> init[i] == xs[i];
      var head :- NonZerosOf(init);
      var b :- Field(xs[|xs| - 1], "b");
      Success(head + [b != Num(0.0)])
  }

  /** `convertBooleanArrayToNumberArray`: `map` is an array method, so anything else under `d` throws. */
  function BooleansToNumbers(obj: Props): (r: Result<seq<nat>, HandlerError>)
    ensures !DValue(obj).Arr? ==> r == Failure(TypeError)
    ensures r.Success? ==> DValue(obj).Arr? && |r.value| == |DValue(obj).items|
  {
    match DValue(obj)
    case Arr(xs) => FlagsOf(xs)
    case _ => Failure(TypeError)
  }

  /** `convertNumberArrayToBooleanArray`. */
  function NumbersToBooleans(obj: Props): (r: Result<seq<bool>, HandlerError>)
    ensures !DValue(obj).Arr? ==> r == Failure(TypeError)
    ensures r.Success? ==> DValue(obj).Arr? && |r.value| == |DValue(obj).items|
  {
    match DValue(obj)
    case Arr(xs) => NonZerosOf(xs)
    case _ => Failure(TypeError)
  }

  // ---------------------------------------------------------------------
  // The class
  // ---------------------------------------------------------------------

  /**
   * `BaseClass`'s private state with the methods of `A` and `B`: `A()` and
   * `B()` are its two constructors, and `B`'s overrides of `add` and
   * `updateItem` do what `A`'s do.
   */
  class Handler {
    var id: string
    var key: string
    var obj: Props

    /** `new A()`: `BaseClass`'s initial state. */
    constructor A()
      ensures id == "base-001" && key == "secret" && obj == BaseObject()
    {
      id := "base-001";
      key := "secret";
      obj := BaseObject();
    }

    /** `new B()`: `BaseClass`'s state, then the four fields set one by one. */
    constructor B()
      ensures id == "base-001" && key == "secret" && obj == BObject()
    {
      id := "base-001";
      key := "secret";
      obj := BaseObject();
      new;
      SetObjField("a", Num(1.0));
      SetObjField("b", Str("B-class"));
      SetObjField("c", Obj(map[]));
      SetObjField("d", Arr([Element(true, 10.0, "x"), Element(false, 20.0, "y")]));
    }

    /** `setObjField`: the one property written, nothing else. */
    method SetObjField(k: string, value: Value)
      modifies this
      ensures obj == old(obj)[k := value] && id == old(id) && key == old(key)
    {
      obj := obj[k := value];
    }

    method Create(value: Value)
      modifies this
      ensures obj == CreateSpec(old(obj), value) && id == old(id) && key == old(key)
    {
      var k := "key_" + NatToString(|obj|);
      SetObjField(k, value);
    }

    method Update(k: string, value: Value)
      modifies this
      ensures obj == UpdateSpec(old(obj), k, value) && id == old(id) && key == old(key)
    {
      if k in obj || k in InheritedKeys {
        SetObjField(k, value);
      }
    }

    method Delete(k: string)
      modifies this
      ensures obj == DeleteSpec(old(obj), k) && id == old(id) && key == old(key)
    {
      if k in obj || k in InheritedKeys {
        obj := obj - {k};
      }
    }

    method Add(item: Value) returns (o: Outcome<HandlerError>)
      modifies this
      ensures o == OutcomeOf(AddSpec(old(obj), item))
      ensures obj == ValueOr(AddSpec(old(obj), item), old(obj)) && id == old(id) && key == old(key)
    {
      var arr := if "d" in obj then obj["d"] else Undefined;
      if !arr.Arr? {
        return Fail(TypeError);
      }
      SetObjField("d", Arr(arr.items + [item]));
      o := Pass;
    }

    method Remove(index: int) returns (o: Outcome<HandlerError>)
      modifies this
      ensures o == OutcomeOf(RemoveSpec(old(obj), index))
      ensures obj == ValueOr(RemoveSpec(old(obj), index), old(obj)) && id == old(id) && key == old(key)
    {
      var arr := if "d" in obj then obj["d"] else Undefined;
      var inBounds := InBounds(index, arr);
      if inBounds.Failure? {
        return Fail(TypeError);
      }
      if inBounds.value {
        if !arr.Arr? {
          return Fail(TypeError);
        }
        SetObjField("d", Arr(RemoveAt(arr.items, index)));
      }
      o := Pass;
    }

    method UpdateItem(index: int, value: Value) returns (o: Outcome<HandlerError>)
      modifies this
      ensures o == OutcomeOf(UpdateItemSpec(old(obj), index, value))
      ensures obj == ValueOr(UpdateItemSpec(old(obj), index, value), old(obj)) && id == old(id) && key == old(key)
    {
      var arr := if "d" in obj then obj["d"] else Undefined;
      var inBounds := InBounds(index, arr);
      if inBounds.Failure? {
        return Fail(TypeError);
      }
      if inBounds.value {
        if arr.Arr? {
          SetObjField("d", Arr(arr.items[index := value]));
        } else if arr.Obj? {
          SetObjField("d", Obj(arr.fields[NatToString(index) := value]));
        } else {
          return Fail(TypeError);
        }
      }
      o := Pass;
    }
  }

  // ---------------------------------------------------------------------
  // What the operations promise
  // ---------------------------------------------------------------------

  /**
   * `create` stores the value under its key; the object grows by one property
   * exactly when that key was free, and otherwise the old value is overwritten.
   * Every other property is unchanged.
   */
  lemma CreateStores(obj: Props, value: Value)
    ensures var r := CreateSpec(obj, value);
      && CreateKey(obj) in r && r[CreateKey(obj)] == value
      && (forall k :: k in obj && k != CreateKey(obj) ==> k in r && r[k] == obj[k])
      && (forall k :: k in r ==> k in obj || k == CreateKey(obj))
      && (CreateKey(obj) !in obj ==> |r| == |obj| + 1)
      && (CreateKey(obj) in obj ==> |r| == |obj|)
  {
  }

  /** `update` of a key `in` the object writes it; of any other key it changes nothing. */
  lemma UpdateCases(obj: Props, key: string, value: Value)
    ensures var r := UpdateSpec(obj, key, value);
      && (!HasKey(obj, key) ==> r == obj)
      && (HasKey(obj, key) ==> key in r && r[key] == value)
      && (forall k :: k != key ==> (k in r <==> k in obj) && (k in obj ==> r[k] == obj[k]))
      && (key in obj ==> r.Keys == obj.Keys)
  {
  }

  /** `delete` leaves the key absent and every other property as it was; an absent key is a no-op. */
  lemma DeleteCases(obj: Props, key: string)
    ensures DeleteSpec(obj, key) == obj - {key}
    ensures key !in DeleteSpec(obj, key)
    ensures key !in obj ==> DeleteSpec(obj, key) == obj
  {
  }

  /**
   * After a `delete`, the count `create` names its key by can point at a key
   * still in use: from `B`'s state, two creates write `key_4` and `key_5`,
   * deleting `key_4` leaves five properties, and the next create overwrites
   * `key_5`, losing the value stored there.
   */
  lemma CreateAfterDeleteOverwrites(v1: Value, v2: Value, v3: Value)
    ensures var o1 := CreateSpec(BObject(), v1);
      var o2 := CreateSpec(o1, v2);
      var o3 := DeleteSpec(o2, "key_4");
      var o4 := CreateSpec(o3, v3);
      && "key_4" in o2 && o2["key_4"] == v1 && "key_5" in o2 && o2["key_5"] == v2
      && CreateKey(o3) == "key_5"
      && "key_5" in o4 && o4["key_5"] == v3 && |o4| == |o3| && "key_4" !in o4
  {
    BObjectShape();
    CreateTwice(BObject(), v1, v2);
    var o2 := CreateSpec(CreateSpec(BObject(), v1), v2);
    DeleteOwnKey(o2, "key_4");
    var o3 := DeleteSpec(o2, "key_4");
    assert |o3| == 5 && "key_5" in o3;
    assert NatToString(5) == "5";
  }

  /**
   * The object operations `performCRUD` runs on a `B`: the two values land on
   * `key_4` and `key_5`, `b` is overwritten, and `delete('key_0')` finds no
   * such key and removes nothing.
   */
  lemma PerformCrudResult()
    ensures var v1 := Obj(map["newKey" := Str("value1")]);
      var v2 := Obj(map["newKey" := Str("value2")]);
      var o := DeleteSpec(UpdateSpec(CreateSpec(CreateSpec(BObject(), v1), v2), "b", Str("Updated from ClassC")), "key_0");
      o == BObject()["key_4" := v1]["key_5" := v2]["b" := Str("Updated from ClassC")]
  {
    var v1 := Obj(map["newKey" := Str("value1")]);
    var v2 := Obj(map["newKey" := Str("value2")]);
    BObjectShape();
    CreateTwice(BObject(), v1, v2);
    var o3 := BObject()["key_4" := v1]["key_5" := v2]["b" := Str("Updated from ClassC")];
    assert "key_0" !in o3;
    Key0NotInherited();
    assert DeleteSpec(o3, "key_0") == o3;
  }

  /** The shape of a fresh `B`'s object: four own properties, none of them a generated key. */
  lemma BObjectShape()
    ensures |BObject()| == 4 && "b" in BObject()
    ensures "key_0" !in BObject() && "key_4" !in BObject() && "key_5" !in BObject()
  {
    assert BObject().Keys == {"a", "b", "c", "d"};
  }

  /** Two creates on four properties store under `key_4` and then `key_5`. */
  lemma CreateTwice(obj: Props, v1: Value, v2: Value)
    requires |obj| == 4 && "key_4" !in obj && "key_5" !in obj
    ensures CreateSpec(CreateSpec(obj, v1), v2) == obj["key_4" := v1]["key_5" := v2]
    ensures |obj["key_4" := v1]["key_5" := v2]| == 6
  {
    assert NatToString(4) == "4" && NatToString(5) == "5";
    assert CreateKey(obj) == "key_4";
    assert |obj["key_4" := v1]| == 5;
    assert CreateKey(obj["key_4" := v1]) == "key_5";
  }

  /** Deleting an own property drops exactly that one. */
  lemma DeleteOwnKey(obj: Props, k: string)
    requires k in obj
    ensures DeleteSpec(obj, k) == obj - {k} && |DeleteSpec(obj, k)| == |obj| - 1
  {
  }

  /** A generated key is not one of the inherited names. */
  lemma Key0NotInherited()
    ensures "key_0" !in InheritedKeys
  {
  }

  /** `add` succeeds exactly on an array under `d`, and then appends exactly the item; no other property changes. */
  lemma AddAppends(obj: Props, item: Value)
    ensures AddSpec(obj, item).Success? <==> DValue(obj).Arr?
    ensures AddSpec(obj, item).Success? ==>
      var r := AddSpec(obj, item).value;
      && DValue(r).Arr? && DValue(r).items == DValue(obj).items + [item]
      && |DValue(r).items| == |DValue(obj).items| + 1
      && r.Keys == obj.Keys
      && forall k :: k in obj && k != "d" ==> r[k] == obj[k]
  {
  }

  /** `remove` on an array: within the bounds exactly element `index` goes and the rest keep their order; outside them nothing changes. */
  lemma RemoveCases(obj: Props, index: int)
    requires DValue(obj).Arr?
    ensures var xs := DValue(obj).items;
      && RemoveSpec(obj, index).Success?
      && (!(0 <= index < |xs|) ==> RemoveSpec(obj, index).value == obj)
      && (0 <= index < |xs| ==>
            var r := RemoveSpec(obj, index).value;
            && r.Keys == obj.Keys
            && (forall k :: k in obj && k != "d" ==> r[k] == obj[k])
            && DValue(r) == Arr(xs[..index] + xs[index + 1..]))
  {
  }

  /**
   * Off arrays the bounds check still converts `length`: on `{length: true}`
   * index 0 is in bounds, so `remove` throws (`splice` is missing) and
   * `updateItem` writes the property "0".
   */
  lemma BooleanLength(obj: Props, v: Value)
    requires DValue(obj) == Obj(map["length" := Bool(true)])
    ensures RemoveSpec(obj, 0) == Failure(TypeError)
    ensures UpdateItemSpec(obj, 0, v) == Success(obj["d" := Obj(map["length" := Bool(true), "0" := v])])
    ensures RemoveSpec(obj, 1).Success? && UpdateItemSpec(obj, 1, v) == Success(obj)
  {
    assert NatToString(0) == "0";
  }

  /** `updateItem` on an array: within the bounds only element `index` changes and the length stays; outside them nothing changes. */
  lemma UpdateItemCases(obj: Props, index: int, value: Value)
    requires DValue(obj).Arr?
    ensures var xs := DValue(obj).items;
      && UpdateItemSpec(obj, index, value).Success?
      && (!(0 <= index < |xs|) ==> UpdateItemSpec(obj, index, value).value == obj)
      && (0 <= index < |xs| ==>
            var r := UpdateItemSpec(obj, index, value).value;
            && r.Keys == obj.Keys
            && (forall k :: k in obj && k != "d" ==> r[k] == obj[k])
            && DValue(r).Arr? && |DValue(r).items| == |xs|
            && DValue(r).items[index] == value
            && forall j :: 0 <= j < |xs| && j != index ==> DValue(r).items[j] == xs[j])
  {
  }

  /** The array operations throw only when `d` is missing or not what the call needs. */
  lemma ArrayOpsFailOnlyOffArrays(obj: Props, index: int, value: Value)
    requires DValue(obj).Arr?
    ensures AddSpec(obj, value).Success?
    ensures RemoveSpec(obj, index).Success? && UpdateItemSpec(obj, index, value).Success?
  {
  }

  /** On typed elements, the numbers are 1 exactly for the elements whose `a` is true, and the flags true exactly for a non-zero `b`. */
  lemma ConversionsOnTypedElements(xs: seq<Value>, flags: seq<bool>, bs: seq<real>, cs: seq<string>)
    requires |flags| == |xs| && |bs| == |xs| && |cs| == |xs|
    requires forall i :: 0 <= i < |xs| ==> xs[i] == Element(flags[i], bs[i], cs[i])
    ensures FlagsOf(xs).Success? && NonZerosOf(xs).Success?
    ensures forall i :: 0 <= i < |xs| ==> (FlagsOf(xs).value[i] == 1 <==> flags[i])
    ensures forall i :: 0 <= i < |xs| ==> (NonZerosOf(xs).value[i] <==> bs[i] != 0.0)
  {
    forall i | 0 <= i < |xs|
      ensures xs[i].Obj? && Field(xs[i], "a") == Success(Bool(flags[i])) && Field(xs[i], "b") == Success(Num(bs[i]))
    {
      ElementFields(flags[i], bs[i], cs[i]);
    }
    FlagsOnElements(xs, flags);
    NonZerosOnElements(xs, bs);
  }

  /** The `a` and `b` properties of an element are the values it was built from. */
  lemma ElementFields(a: bool, b: real, c: string)
    ensures Element(a, b, c).Obj?
    ensures Field(Element(a, b, c), "a") == Success(Bool(a)) && Field(Element(a, b, c), "b") == Success(Num(b))
  {
  }

  lemma FlagsOnElements(xs: seq<Value>, flags: seq<bool>)
    requires |flags| == |xs|
    requires forall i :: 0 <= i < |xs| ==> xs[i].Obj? && Field(xs[i], "a") == Success(Bool(flags[i]))
    ensures FlagsOf(xs).Success?
    ensures forall i :: 0 <= i < |xs| ==> (FlagsOf(xs).value[i] == 1 <==> flags[i])
  {
  }

  lemma NonZerosOnElements(xs: seq<Value>, bs: seq<real>)
    requires |bs| == |xs|
    requires forall i :: 0 <= i < |xs| ==> xs[i].Obj? && Field(xs[i], "b") == Success(Num(bs[i]))
    ensures NonZerosOf(xs).Success?
    ensures forall i :: 0 <= i < |xs| ==> (NonZerosOf(xs).value[i] <==> bs[i] != 0.0)
  {
  }

  /**
   * The array operations `performArrayOps` runs on a `B`: after adding an
   * element, replacing element 0 and removing element 1, the array holds the
   * replacement followed by the added element.
   */
  lemma PerformArrayOpsResult()
    ensures var added := Element(true, 99.0, "Added");
      var modified := Element(false, 55.0, "Modified");
      var o1 := AddSpec(BObject(), added);
      o1.Success?
      && UpdateItemSpec(o1.value, 0, modified).Success?
      && RemoveSpec(UpdateItemSpec(o1.value, 0, modified).value, 1).Success?
      && DValue(RemoveSpec(UpdateItemSpec(o1.value, 0, modified).value, 1).value) == Arr([modified, added])
  {
    var xs := [Element(true, 10.0, "x"), Element(false, 20.0, "y")];
    assert DValue(BObject()) == Arr(xs);
    AddReplaceRemove(BObject(), xs[0], xs[1], Element(true, 99.0, "Added"), Element(false, 55.0, "Modified"));
  }

  /** On a two-element array: add, replace element 0, remove element 1 leaves the replacement and the added element. */
  lemma AddReplaceRemove(obj: Props, x: Value, y: Value, added: Value, modified: Value)
    requires DValue(obj) == Arr([x, y])
    ensures var o1 := AddSpec(obj, added);
      o1.Success?
      && UpdateItemSpec(o1.value, 0, modified).Success?
      && RemoveSpec(UpdateItemSpec(o1.value, 0, modified).value, 1).Success?
      && DValue(RemoveSpec(UpdateItemSpec(o1.value, 0, modified).value, 1).value) == Arr([modified, added])
  {
    AddToTwo(obj, x, y, added);
    var o1 := AddSpec(obj, added).value;
    ReplaceFirstOfThree(o1, x, y, added, modified);
    RemoveSecondOfThree(UpdateItemSpec(o1, 0, modified).value, modified, y, added);
  }

  lemma AddToTwo(obj: Props, x: Value, y: Value, item: Value)
    requires DValue(obj) == Arr([x, y])
    ensures AddSpec(obj, item).Success? && DValue(AddSpec(obj, item).value) == Arr([x, y, item])
  {
    assert [x, y] + [item] == [x, y, item];
  }

  lemma ReplaceFirstOfThree(obj: Props, x: Value, y: Value, z: Value, v: Value)
    requires DValue(obj) == Arr([x, y, z])
    ensures UpdateItemSpec(obj, 0, v).Success? && DValue(UpdateItemSpec(obj, 0, v).value) == Arr([v, y, z])
  {
    assert [x, y, z][0 := v] == [v, y, z];
  }

  lemma RemoveSecondOfThree(obj: Props, x: Value, y: Value, z: Value)
    requires DValue(obj) == Arr([x, y, z])
    ensures RemoveSpec(obj, 1).Success? && DValue(RemoveSpec(obj, 1).value) == Arr([x, z])
  {
    RemoveStep(obj, [x, y, z], 1);
    RemoveMiddle(x, y, z);
  }

  lemma RemoveStep(obj: Props, xs: seq<Value>, index: nat)
    requires DValue(obj) == Arr(xs) && index < |xs|
    ensures RemoveSpec(obj, index).Success? && DValue(RemoveSpec(obj, index).value) == Arr(RemoveAt(xs, index))
  {
  }

  lemma RemoveMiddle<T>(x: T, y: T, z: T)
    ensures RemoveAt([x, y, z], 1) == [x, z]
  {
    assert [x, y, z][..1] == [x] && [x, y, z][2..] == [z];
  }

  /** `testConversions` on `B`'s initial array: numbers `[1, 0]`, flags `[true, true]`. */
  lemma BConversions()
    ensures BooleansToNumbers(BObject()) == Success([1, 0])
    ensures NumbersToBooleans(BObject()) == Success([true, true])
  {
    var xs := [Element(true, 10.0, "x"), Element(false, 20.0, "y")];
    assert DValue(BObject()) == Arr(xs);
    ConversionsOnTypedElements(xs, [true, false], [10.0, 20.0], ["x", "y"]);
    assert FlagsOf(xs).value == [1, 0];
    assert NonZerosOf(xs).value == [true, true];
  }
}
