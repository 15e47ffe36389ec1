/**
 * The recursive `extend` utility of `defaultSettings.ts`, which merges plain
 * objects into a target, deeply when asked to.
 *
 * `extend` is modelled on values: the target is a value, and the methods return
 * the updated target instead of writing through a shared reference.
 */
module Extending {
  import opened Wrappers
  import opened JsValues

  /** Why a merge throws. */
  datatype MergeError =
    /** Assigning a property on `null`, `undefined` or a primitive: a TypeError in strict mode. */
    | AssignToPrimitive
    /** Assigning a named property on an array or a function: JavaScript accepts it, but the
        value model cannot represent named properties on those. */
    | AssignToArrayOrFunction

  // ---------------------------------------------------------------------------
  // Sizes, used only to prove that the recursion of `extend` terminates.

  function Size(v: Value): nat
    decreases v
  {
    match v
    case Obj(_) => 1 + SizeFrom(v, 0)
    case _ => 1
  }

  function SizeFrom(v: Value, i: nat): nat
    requires v.Obj?
    decreases v, |v.props| - i
  {
    if i >= |v.props| then 0 else 1 + Size(v.props[i].1) + SizeFrom(v, i + 1)
  }

  function PropsSize(p: Props): nat
  {
    SizeFrom(Obj(p), 0)
  }

  function SourcesSize(srcs: seq<Props>): nat
  {
    if srcs == [] then 0 else 1 + PropsSize(srcs[0]) + SourcesSize(srcs[1..])
  }

  lemma {:induction false} EntrySmallerFrom(v: Value, j: nat, i: nat)
    requires v.Obj? && j <= i < |v.props|
    ensures Size(v.props[i].1) < SizeFrom(v, j)
    decreases i - j
  {
    if j < i {
      EntrySmallerFrom(v, j + 1, i);
    }
  }

  /** The value of an entry is smaller than the object holding it. */
  lemma EntrySmaller(p: Props, i: nat)
    requires i < |p|
    ensures Size(p[i].1) < PropsSize(p)
  {
    EntrySmallerFrom(Obj(p), 0, i);
  }

  /** A plain-object value, as the only source of a nested `extend`, keeps its size. */
  lemma SingleSourceSize(v: Value)
    ensures v.Obj? ==> SourcesSize([v.props]) == Size(v)
  {
    if v.Obj? {
      assert [v.props][1..] == [];
    }
  }

  lemma {:induction false} SourceSmaller(srcs: seq<Props>, i: nat)
    requires i < |srcs|
    ensures PropsSize(srcs[i]) < SourcesSize(srcs)
  {
    if i > 0 {
      SourceSmaller(srcs[1..], i - 1);
    }
  }

  // ---------------------------------------------------------------------------
  // The meaning of `extend(deep, target, ...src)`, as functions.

  /** The object an `extend` call writes into: a fresh `{}` in place of `undefined`. */
  function Start(target: Value): Value
  {
    if target.Undefined? then Obj([]) else target
  }

  /** The result of `extend(deep, target, ...srcs)`: the final target, or the error it throws. */
  function Extended(deep: bool, target: Value, srcs: seq<Props>): Result<Value, MergeError>
    decreases SourcesSize(srcs), 2
  {
    MergedAll(deep, Start(target), srcs)
  }

  /** The sources merged into `t` left to right (`src.forEach(o => merge(o))`). */
  function MergedAll(deep: bool, t: Value, srcs: seq<Props>): Result<Value, MergeError>
    decreases SourcesSize(srcs), 1
  {
    if srcs == [] then Success(t)
    else
      SourceSmaller(srcs, 0);
      var t' :- Merged(deep, t, srcs[0], 0);
      MergedAll(deep, t', srcs[1..])
  }

  /** `merge(obj)` applied to `t`, from the entry at index `i` on. */
  function Merged(deep: bool, t: Value, obj: Props, i: nat): Result<Value, MergeError>
    decreases PropsSize(obj), 0, |obj| - i
  {
    if i >= |obj| then Success(t)
    else
      var (key, value) := obj[i];
      if value.Undefined? then Merged(deep, t, obj, i + 1)
      else if !t.Obj? then
        Failure(if t.Arr? || t.Func? then AssignToArrayOrFunction else AssignToPrimitive)
      else
        EntrySmaller(obj, i);
        SingleSourceSize(value);
        var nv :- if deep && value.Obj? then Extended(true, Get(t.props, key), [value.props])
                  else Success(value);
        Merged(deep, Obj(Put(t.props, key, nv)), obj, i + 1)
  }

  /** What `merge` leaves under one key, given the target's previous value `previous` and the
      source's value `v` for that key. */
  function MergedEntry(deep: bool, previous: Value, v: Value): Result<Value, MergeError>
  {
    if v.Undefined? then Success(previous)
    else if deep && v.Obj? then Extended(true, previous, [v.props])
    else Success(v)
  }

  // ---------------------------------------------------------------------------
  // `extend` and its inner `merge`, as the code runs them.

  /** `extend(deep, target, ...srcs)`. */
  method Extend(deep: bool, target: Value, srcs: seq<Props>) returns (r: Result<Value, MergeError>)
    ensures r == Extended(deep, target, srcs)
    decreases SourcesSize(srcs), 2
  {
    var t := target;
    if t.Undefined? {
      t := Obj([]);
    }
    var i := 0;
    while i < |srcs|
      invariant 0 <= i <= |srcs|
      invariant Extended(deep, target, srcs) == MergedAll(deep, t, srcs[i..])
    {
      SourceSmaller(srcs, i);
      var m := Merge(deep, t, srcs[i]);
      assert srcs[i..][1..] == srcs[i + 1..];
      if m.Failure? {
        return Failure(m.error);
      }
      t := m.value;
      i := i + 1;
    }
    return Success(t);
  }

  /** The closure `merge(obj)`, writing every defined entry of `obj` into `target`. */
  method Merge(deep: bool, target: Value, obj: Props) returns (r: Result<Value, MergeError>)
    ensures r == Merged(deep, target, obj, 0)
    decreases PropsSize(obj), 1
  {
    var t := target;
    for j := 0 to |obj|
      invariant Merged(deep, target, obj, 0) == Merged(deep, t, obj, j)
    {
      var (key, value) := obj[j];
      if value.Undefined? {
        continue;
      }
      if !t.Obj? {
        return Failure(if t.Arr? || t.Func? then AssignToArrayOrFunction else AssignToPrimitive);
      }
      var nv := value;
      if deep && value.Obj? {
        EntrySmaller(obj, j);
        SingleSourceSize(value);
        var sub := Extend(true, Get(t.props, key), [value.props]);
        if sub.Failure? {
          return Failure(sub.error);
        }
        nv := sub.value;
      }
      t := Obj(Put(t.props, key, nv));
    }
    return Success(t);
  }

  // ---------------------------------------------------------------------------
  // What a merge does to each key.

  lemma SuffixCons(obj: Props, i: nat)
    requires i < |obj|
    ensures obj[i..] != [] && obj[i..][0] == obj[i] && obj[i..][1..] == obj[i + 1..]
  {
  }

  /** `merge(obj)` on a plain-object target decides every key on its own: it succeeds exactly
      when every key does, and then the target holds under each key what `MergedEntry` gives
      for it; keys without a defined value in `obj` keep their previous value. */
  lemma {:induction false} MergedPerKey(deep: bool, tp: Props, obj: Props, i: nat)
    requires UniqueKeys(obj) && i <= |obj|
    ensures Merged(deep, Obj(tp), obj, i).Success? <==>
              forall k :: MergedEntry(deep, Get(tp, k), Get(obj[i..], k)).Success?
    ensures Merged(deep, Obj(tp), obj, i).Success? ==>
              && Merged(deep, Obj(tp), obj, i).value.Obj?
              && forall k :: MergedEntry(deep, Get(tp, k), Get(obj[i..], k))
                               == Success(Get(Merged(deep, Obj(tp), obj, i).value.props, k))
    decreases |obj| - i
  {
    if i == |obj| {
      assert obj[i..] == [];
    } else {
      SuffixCons(obj, i);
      KeyNotLater(obj, i);
      var (key, value) := obj[i];
      assert Get(obj[i + 1..], key) == Undefined;
      assert forall k :: k != key ==> Get(obj[i..], k) == Get(obj[i + 1..], k);
      if value.Undefined? {
        MergedPerKey(deep, tp, obj, i + 1);
        assert forall k :: MergedEntry(deep, Get(tp, k), Get(obj[i..], k))
                           == MergedEntry(deep, Get(tp, k), Get(obj[i + 1..], k));
      } else {
        var nv := MergedEntry(deep, Get(tp, key), value);
        assert Get(obj[i..], key) == value;
        if nv.Success? {
          var tp' := Put(tp, key, nv.value);
          assert Merged(deep, Obj(tp), obj, i) == Merged(deep, Obj(tp'), obj, i + 1);
          MergedPerKey(deep, tp', obj, i + 1);
          forall k ensures MergedEntry(deep, Get(tp, k), Get(obj[i..], k))
                           == MergedEntry(deep, Get(tp', k), Get(obj[i + 1..], k)) {
          }
          if !Merged(deep, Obj(tp), obj, i).Success? {
            var k :| !MergedEntry(deep, Get(tp', k), Get(obj[i + 1..], k)).Success?;
            assert !MergedEntry(deep, Get(tp, k), Get(obj[i..], k)).Success?;
          }
        } else {
          assert Merged(deep, Obj(tp), obj, i).Failure?;
          assert !MergedEntry(deep, Get(tp, key), Get(obj[i..], key)).Success?;
          assert !(forall k :: MergedEntry(deep, Get(tp, k), Get(obj[i..], k)).Success?);
        }
      }
    }
  }

  lemma MergedAllSingle(deep: bool, t: Value, obj: Props)
    ensures MergedAll(deep, t, [obj]) == Merged(deep, t, obj, 0)
  {
    assert [obj][0] == obj && [obj][1..] == [];
    match Merged(deep, t, obj, 0)
    case Success(t') =>
      assert MergedAll(deep, t', []) == Success(t');
    case Failure(e) =>
  }

  /** A source whose every value is `undefined` leaves any target as it is. */
  lemma {:induction false} MergedUndefinedOnly(deep: bool, t: Value, obj: Props, i: nat)
    requires forall j :: i <= j < |obj| ==> obj[j].1.Undefined?
    ensures Merged(deep, t, obj, i) == Success(t)
    decreases |obj| - i
  {
    if i < |obj| {
      MergedUndefinedOnly(deep, t, obj, i + 1);
    }
  }

  /** `extend(deep, {...}, obj)` with a single source, key by key. */
  lemma ExtendedPerKey(deep: bool, tp: Props, obj: Props)
    requires UniqueKeys(obj)
    ensures Extended(deep, Obj(tp), [obj]).Success? <==>
              forall k :: MergedEntry(deep, Get(tp, k), Get(obj, k)).Success?
    ensures Extended(deep, Obj(tp), [obj]).Success? ==>
              && Extended(deep, Obj(tp), [obj]).value.Obj?
              && forall k :: MergedEntry(deep, Get(tp, k), Get(obj, k))
                               == Success(Get(Extended(deep, Obj(tp), [obj]).value.props, k))
  {
    MergedPerKey(deep, tp, obj, 0);
    assert obj[0..] == obj;
    MergedAllSingle(deep, Obj(tp), obj);
  }

  /** Sources apply left to right: a key that no source defines keeps the target's value, and a
      key that the last source sets to a value that is not merged recursively ends with that
      value, whatever earlier sources held. */
  lemma {:induction false} ExtendedLaterSourceWins(deep: bool, tp: Props, srcs: seq<Props>, k: string)
    requires forall i :: 0 <= i < |srcs| ==> UniqueKeys(srcs[i])
    requires MergedAll(deep, Obj(tp), srcs).Success?
    ensures MergedAll(deep, Obj(tp), srcs).value.Obj?
    ensures (forall i :: 0 <= i < |srcs| ==> k !in Keys(srcs[i])) ==>
              Get(MergedAll(deep, Obj(tp), srcs).value.props, k) == Get(tp, k)
    ensures srcs != [] && !Get(srcs[|srcs| - 1], k).Undefined?
              && !(deep && Get(srcs[|srcs| - 1], k).Obj?) ==>
              Get(MergedAll(deep, Obj(tp), srcs).value.props, k) == Get(srcs[|srcs| - 1], k)
    decreases |srcs|
  {
    if srcs != [] {
      MergedPerKey(deep, tp, srcs[0], 0);
      assert srcs[0][0..] == srcs[0];
      var t1 := Merged(deep, Obj(tp), srcs[0], 0).value;
      assert MergedEntry(deep, Get(tp, k), Get(srcs[0], k)) == Success(Get(t1.props, k));
      var rest := srcs[1..];
      assert forall i :: 0 <= i < |rest| ==> rest[i] == srcs[i + 1];
      ExtendedLaterSourceWins(deep, t1.props, rest, k);
    }
  }

  // ---------------------------------------------------------------------------
  // A deep merge into a fresh object copies.

  /** An object tree in which no object repeats a property name and no property is `undefined`
      (as every object the settings code is given by a JSON document or an object literal
      without `undefined` members). */
  predicate FullyDefined(v: Value)
    decreases v
  {
    match v
    case Obj(p) =>
      UniqueKeys(p) && forall i :: 0 <= i < |p| ==> !p[i].1.Undefined? && FullyDefined(p[i].1)
    case _ => true
  }

  lemma {:induction false} CopyFrom(p: Props, i: nat)
    requires FullyDefined(Obj(p)) && i <= |p|
    ensures Merged(true, Obj(p[..i]), p, i) == Success(Obj(p))
    decreases PropsSize(p), 0, |p| - i
  {
    if i == |p| {
      assert p[..i] == p;
    } else {
      var (key, value) := p[i];
      forall j | 0 <= j < |p[..i]| ensures p[..i][j].0 != key {
        assert p[..i][j] == p[j];
      }
      if value.Obj? {
        EntrySmaller(p, i);
        assert PropsSize(value.props) < Size(value);
        Copy(value);
      }
      PutNewAppends(p[..i], key, value);
      assert p[..i] + [(key, value)] == p[..i + 1];
      CopyFrom(p, i + 1);
    }
  }

  /** `extend(true, undefined, obj)` rebuilds `obj` in a fresh object: the merged value is equal
      to the source at every depth. */
  lemma {:induction false} Copy(v: Value)
    requires v.Obj? && FullyDefined(v)
    ensures Extended(true, Undefined, [v.props]) == Success(v)
    decreases PropsSize(v.props), 1, 0
  {
    CopyFrom(v.props, 0);
    assert v.props[..0] == [];
    MergedAllSingle(true, Obj([]), v.props);
  }

  /** The first source of a deep merge into `{}` that is fully defined is copied, so the rest of
      the merge starts from a copy of it. */
  lemma ExtendedOverCopy(base: Props, options: Props)
    requires FullyDefined(Obj(base))
    ensures Extended(true, Obj([]), [base, options]) == MergedAll(true, Obj(base), [options])
  {
    Copy(Obj(base));
    MergedAllSingle(true, Obj([]), base);
    var srcs := [base, options];
    assert srcs[0] == base && srcs[1..] == [options];
  }

  /** A deep merge of `{key: {...nested}}` into an object whose `key` holds a plain object merges
      `nested` into that object and leaves the other keys alone. */
  lemma MergedNestedKey(base: Props, key: string, nested: Props)
    requires Get(base, key).Obj?
    requires Extended(true, Get(base, key), [nested]).Success?
    ensures MergedAll(true, Obj(base), [[(key, Obj(nested))]]).Success?
    ensures MergedAll(true, Obj(base), [[(key, Obj(nested))]]).value
            == Obj(Put(base, key, Extended(true, Get(base, key), [nested]).value))
  {
    var obj := [(key, Obj(nested))];
    MergedAllSingle(true, Obj(base), obj);
    EntrySmaller(obj, 0);
    SingleSourceSize(Obj(nested));
    var nv := Extended(true, Get(base, key), [nested]).value;
    assert Merged(true, Obj(base), obj, 0) == Merged(true, Obj(Put(base, key, nv)), obj, 1);
  }

  /** `merged` reads as `top` laid over `under`: each name has its value in `top` when `top` has
      it, its value in `under` otherwise. */
  ghost predicate Overlays(merged: Props, top: Props, under: Props)
  {
    forall name :: Get(merged, name) == if name in Keys(top) then Get(top, name) else Get(under, name)
  }

  /** A deep merge of `{key: {...nested}}`, where `nested` holds only strings, into an object
      whose `key` holds the plain object `inner`: the merged object under `key` takes each name
      from `nested` when it is there, from `inner` otherwise. */
  lemma MergedAddsToNested(base: Props, key: string, inner: Props, nested: Props)
    requires Get(base, key) == Obj(inner)
    requires UniqueKeys(nested)
    requires forall i :: 0 <= i < |nested| ==> nested[i].1.Str?
    ensures MergedAll(true, Obj(base), [[(key, Obj(nested))]]).Success?
    ensures var r := MergedAll(true, Obj(base), [[(key, Obj(nested))]]).value;
            r.Obj? && Get(r.props, key).Obj? && Overlays(Get(r.props, key).props, nested, inner)
  {
    ExtendedPerKey(true, inner, nested);
    forall name ensures MergedEntry(true, Get(inner, name), Get(nested, name))
                        == Success(if name in Keys(nested) then Get(nested, name) else Get(inner, name))
    {
      if name in Keys(nested) {
        var i :| 0 <= i < |nested| && nested[i].0 == name;
        GetUnique(nested, i);
      }
    }
    MergedNestedKey(base, key, nested);
  }
}
