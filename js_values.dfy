/**
 * The JavaScript values that the settings merge, the attribute reader and the
 * data-source handlers work on: the JSON-like part of the language, plus
 * functions (known only by a name, since their code is never inspected).
 * Numbers are modelled as integers.
 *
 * A plain object is a sequence of (key, value) entries in property order, as
 * `Object.entries` lists them; writing an existing key keeps its position and
 * writing a new key appends it.
 */
module JsValues {
  import opened Wrappers

  datatype Value =
    | Undefined
    | Null
    | Bool(b: bool)
    | Num(n: int)
    | Str(s: string)
    | Arr(items: seq<Value>)
    | Obj(props: Props)
    | Func(name: string)

  type Props = seq<(string, Value)>

  /** The error a property access or assignment throws. */
  datatype JsError = TypeError(message: string)

  /** The own property names of an object. */
  function Keys(p: Props): set<string>
  {
    set i | 0 <= i < |p| :: p[i].0
  }

  /** A JavaScript object never holds two properties with the same name. */
  predicate UniqueKeys(p: Props)
  {
    forall i, j :: 0 <= i < j < |p| ==> p[i].0 != p[j].0
  }

  /** `obj[k]` on a plain object: the value of the property, `undefined` when absent. */
  function Get(p: Props, k: string): (v: Value)
    ensures k !in Keys(p) ==> v == Undefined
  {
    if p == [] then Undefined
    else if p[0].0 == k then p[0].1
    else KeysCons(p); Get(p[1..], k)
  }

  /** `obj[k] = v` on a plain object: the value of an existing property is replaced in place,
      a new property is appended. */
  function Put(p: Props, k: string, v: Value): (r: Props)
    ensures Keys(r) == Keys(p) + {k}
    ensures Get(r, k) == v
    ensures forall k' :: k' != k ==> Get(r, k') == Get(p, k')
  {
    if p == [] then
      assert [(k, v)][0].0 == k;
      [(k, v)]
    else if p[0].0 == k then
      var r := [(k, v)] + p[1..];
      KeysCons(p);
      KeysCons(r);
      assert r[1..] == p[1..];
      r
    else
      var rest := Put(p[1..], k, v);
      var r := [p[0]] + rest;
      assert r[1..] == rest;
      KeysCons(p);
      KeysCons(r);
      r
  }

  lemma KeysCons(p: Props)
    requires p != []
    ensures Keys(p) == {p[0].0} + Keys(p[1..])
  {
    forall k | k in Keys(p) ensures k in {p[0].0} + Keys(p[1..]) {
      var i :| 0 <= i < |p| && p[i].0 == k;
      if i > 0 { assert p[1..][i - 1].0 == k; }
    }
    forall k | k in Keys(p[1..]) ensures k in Keys(p) {
      var i :| 0 <= i < |p[1..]| && p[1..][i].0 == k;
      assert p[i + 1].0 == k;
    }
  }

  /** In an object without repeated names, no later entry repeats the name of entry `i`. */
  lemma KeyNotLater(obj: Props, i: nat)
    requires UniqueKeys(obj) && i < |obj|
    ensures obj[i].0 !in Keys(obj[i + 1..])
  {
    var later := obj[i + 1..];
    forall j | 0 <= j < |later| ensures later[j].0 != obj[i].0 {
      assert later[j] == obj[i + 1 + j];
    }
  }

  /** Prepending an entry whose name the rest lacks keeps the names unique. */
  lemma UniqueCons(x: (string, Value), rest: Props)
    requires UniqueKeys(rest) && x.0 !in Keys(rest)
    ensures UniqueKeys([x] + rest)
  {
    var r := [x] + rest;
    forall i, j | 0 <= i < j < |r| ensures r[i].0 != r[j].0 {
      assert r[j] == rest[j - 1];
      if i > 0 {
        assert r[i] == rest[i - 1];
      }
    }
  }

  /** Writing a property never creates a second property of the same name. */
  lemma {:induction false} PutKeepsUnique(p: Props, k: string, v: Value)
    requires UniqueKeys(p)
    ensures UniqueKeys(Put(p, k, v))
  {
    if p != [] {
      KeyNotLater(p, 0);
      assert p[0 + 1..] == p[1..];
      if p[0].0 == k {
        UniqueCons((k, v), p[1..]);
      } else {
        PutKeepsUnique(p[1..], k, v);
        UniqueCons(p[0], Put(p[1..], k, v));
      }
    }
  }

  /** Writing a new property appends it after the existing ones. */
  lemma {:induction false} PutNewAppends(p: Props, k: string, v: Value)
    requires k !in Keys(p)
    ensures Put(p, k, v) == p + [(k, v)]
  {
    if p != [] {
      KeysCons(p);
      PutNewAppends(p[1..], k, v);
      assert p == [p[0]] + p[1..];
    }
  }

  /** In an object without repeated names, each entry is what `Get` finds for its name. */
  lemma {:induction false} GetUnique(p: Props, i: nat)
    requires UniqueKeys(p) && i < |p|
    ensures Get(p, p[i].0) == p[i].1
  {
    if i > 0 {
      assert p[0].0 != p[i].0;
      assert p[1..][i - 1] == p[i];
      GetUnique(p[1..], i - 1);
    }
  }

  /** `Get` finds entry `i` when no earlier entry has its name. */
  lemma {:induction false} GetAt(p: Props, i: nat)
    requires i < |p|
    requires forall j :: 0 <= j < i ==> p[j].0 != p[i].0
    ensures Get(p, p[i].0) == p[i].1
  {
    if i > 0 {
      assert p[1..][i - 1] == p[i];
      GetAt(p[1..], i - 1);
    }
  }

  /** JavaScript truthiness (integers stand in for numbers, so NaN is not modelled). */
  predicate Truthy(v: Value)
  {
    match v
    case Undefined => false
    case Null => false
    case Bool(b) => b
    case Num(n) => n != 0
    case Str(s) => s != ""
    case _ => true
  }

  /** `Object.prototype.toString.call(v) === '[object Object]'`. */
  predicate IsPlainObject(v: Value)
  {
    v.Obj?
  }

  /** The property read `v.k`: it throws on `null` and `undefined`; only the own properties of
      plain objects are modelled, every other value reads as `undefined`. */
  function Member(v: Value, k: string): (r: Result<Value, JsError>)
    ensures r.Failure? <==> v.Undefined? || v.Null?
    ensures v.Obj? ==> r == Success(Get(v.props, k))
    ensures !(v.Obj? || v.Undefined? || v.Null?) ==> r == Success(Undefined)
  {
    match v
    case Undefined => Failure(TypeError("Cannot read properties of undefined"))
    case Null => Failure(TypeError("Cannot read properties of null"))
    case Obj(p) => Success(Get(p, k))
    case _ => Success(Undefined)
  }

  /** The chained property read `v.k1.k2`. */
  function Path(v: Value, k1: string, k2: string): (r: Result<Value, JsError>)
    ensures r.Success? <==> !(v.Undefined? || v.Null?) && Member(v, k1).Success?
                             && !(Member(v, k1).value.Undefined? || Member(v, k1).value.Null?)
  {
    var first :- Member(v, k1);
    Member(first, k2)
  }
}
