/** `flatten_json` (ocr_utils.py): a depth-first walk that records every
    scalar leaf of a JSON value under the path that leads to it, the path's
    field names and list indices joined by `_`. The walk fills a dictionary
    `out` (key to leaf) and a list `order` (keys in visit order). */
module Flatten {
  import opened Text
  import opened Json

  /** One scalar reached by the walk, with the key it is stored under. */
  datatype Leaf = Leaf(key: string, value: JsonValue)

  /** Python's `name[:-1]`: the accumulated prefix without its trailing `_`
      (the empty prefix stays empty). */
  function DropLast(name: string): string
  {
    if name == [] then [] else name[..|name| - 1]
  }

  /** The leaves the walk visits, in order, starting from value `v` with
      accumulated prefix `name`: each field and each list element extends
      the prefix by its name or index and a `_`. */
  function Walk(v: JsonValue, name: string): seq<Leaf>
    decreases v
  {
    match v
    case Object(fields) => WalkFields(fields, name)
    case Array(items) => WalkItems(items, name)
    case _ => [Leaf(DropLast(name), v)]
  }

  function WalkFields(fields: seq<Field>, name: string): seq<Leaf>
    decreases fields
  {
    if fields == [] then []
    else
      var f := fields[|fields| - 1];
      WalkFields(fields[..|fields| - 1], name) + Walk(f.value, name + f.name + "_")
  }

  function WalkItems(items: seq<JsonValue>, name: string): seq<Leaf>
    decreases items
  {
    if items == [] then []
    else
      var i := |items| - 1;
      WalkItems(items[..i], name) + Walk(items[i], name + NatToString(i) + "_")
  }

  function Keys(leaves: seq<Leaf>): seq<string>
  {
    seq(|leaves|, i requires 0 <= i < |leaves| => leaves[i].key)
  }

  /** The dictionary after assigning `out[key] = value` for every leaf, in order. */
  function Record(m: map<string, JsonValue>, leaves: seq<Leaf>): map<string, JsonValue>
  {
    if leaves == [] then m
    else
      var l := leaves[|leaves| - 1];
      Record(m, leaves[..|leaves| - 1])[l.key := l.value]
  }

  /** The `out` dictionary `flatten_json` returns. */
  function FlatMap(v: JsonValue): map<string, JsonValue>
  {
    Record(map[], Walk(v, ""))
  }

  /** The `order` list `flatten_json` returns. */
  function FlatOrder(v: JsonValue): seq<string>
  {
    Keys(Walk(v, ""))
  }

  /** The state shared by the recursive closure `flatten`: the dictionary
      and the list it appends to. */
  class Flattener {
    var out: map<string, JsonValue>
    var order: seq<string>

    constructor ()
      ensures out == map[] && order == []
    {
      out := map[];
      order := [];
    }

    /** `flatten(x, name)`: visits `x` depth first, recording each scalar
        under `name[:-1]`. */
    method Flatten(x: JsonValue, name: string)
      modifies this
      ensures order == old(order) + Keys(Walk(x, name))
      ensures out == Record(old(out), Walk(x, name))
      decreases x, 1
    {
      if x.Object? {
        FlattenFields(x.fields, name);
      } else if x.Array? {
        FlattenItems(x.items, name);
      } else {
        out := out[DropLast(name) := x];
        order := order + [DropLast(name)];
      }
    }

    /** The dict branch of `flatten`: `for a in x: flatten(x[a], f"{name}{a}_")`. */
    method FlattenFields(fields: seq<Field>, name: string)
      modifies this
      ensures order == old(order) + Keys(WalkFields(fields, name))
      ensures out == Record(old(out), WalkFields(fields, name))
      decreases fields, 0
    {
      for j := 0 to |fields|
        invariant order == old(order) + Keys(WalkFields(fields[..j], name))
        invariant out == Record(old(out), WalkFields(fields[..j], name))
      {
        FlattenField(fields, j, name, old(order), old(out));
      }
      assert fields[..|fields|] == fields;
    }

    /** One pass of the dict loop: field `j` flattened after fields `..j`. */
    method FlattenField(fields: seq<Field>, j: nat, name: string,
                        ghost order0: seq<string>, ghost out0: map<string, JsonValue>)
      requires j < |fields|
      requires order == order0 + Keys(WalkFields(fields[..j], name))
      requires out == Record(out0, WalkFields(fields[..j], name))
      modifies this
      ensures order == order0 + Keys(WalkFields(fields[..j + 1], name))
      ensures out == Record(out0, WalkFields(fields[..j + 1], name))
      decreases fields[j], 2
    {
      ghost var out1, order1 := out, order;
      Flatten(fields[j].value, name + fields[j].name + "_");
      FieldStep(fields, j, name, out0, order0, out1, order1, out, order);
    }

    /** The list branch of `flatten`: `for i, a in enumerate(x): flatten(a, f"{name}{i}_")`. */
    method FlattenItems(items: seq<JsonValue>, name: string)
      modifies this
      ensures order == old(order) + Keys(WalkItems(items, name))
      ensures out == Record(old(out), WalkItems(items, name))
      decreases items, 0
    {
      for j := 0 to |items|
        invariant order == old(order) + Keys(WalkItems(items[..j], name))
        invariant out == Record(old(out), WalkItems(items[..j], name))
      {
        FlattenItem(items, j, name, old(order), old(out));
      }
      assert items[..|items|] == items;
    }

    /** One pass of the list loop: element `j` flattened after elements `..j`. */
    method FlattenItem(items: seq<JsonValue>, j: nat, name: string,
                       ghost order0: seq<string>, ghost out0: map<string, JsonValue>)
      requires j < |items|
      requires order == order0 + Keys(WalkItems(items[..j], name))
      requires out == Record(out0, WalkItems(items[..j], name))
      modifies this
      ensures order == order0 + Keys(WalkItems(items[..j + 1], name))
      ensures out == Record(out0, WalkItems(items[..j + 1], name))
      decreases items[j], 2
    {
      ghost var out1, order1 := out, order;
      Flatten(items[j], name + NatToString(j) + "_");
      ItemStep(items, j, name, out0, order0, out1, order1, out, order);
    }
  }

  /** Recording `before` and then `here` is recording their concatenation. */
  lemma RecordStep(out0: map<string, JsonValue>, out1: map<string, JsonValue>, out2: map<string, JsonValue>,
                   before: seq<Leaf>, here: seq<Leaf>, whole: seq<Leaf>)
    requires whole == before + here && out1 == Record(out0, before) && out2 == Record(out1, here)
    ensures out2 == Record(out0, whole)
  {
    RecordAppend(out0, before, here);
  }

  /** Listing the keys of `before` and then of `here` lists those of their
      concatenation. */
  lemma KeysStep(order0: seq<string>, order1: seq<string>, order2: seq<string>,
                 before: seq<Leaf>, here: seq<Leaf>, whole: seq<Leaf>)
    requires whole == before + here && order1 == order0 + Keys(before) && order2 == order1 + Keys(here)
    ensures order2 == order0 + Keys(whole)
  {
    KeysAppend(before, here);
  }

  /** The dict loop's step: recording field `j`'s leaves after those of
      fields `..j` records the leaves of fields `..j + 1`. */
  lemma FieldStep(fields: seq<Field>, j: nat, name: string,
                  out0: map<string, JsonValue>, order0: seq<string>,
                  out1: map<string, JsonValue>, order1: seq<string>,
                  out2: map<string, JsonValue>, order2: seq<string>)
    requires j < |fields|
    requires out1 == Record(out0, WalkFields(fields[..j], name)) && order1 == order0 + Keys(WalkFields(fields[..j], name))
    requires out2 == Record(out1, Walk(fields[j].value, name + fields[j].name + "_"))
    requires order2 == order1 + Keys(Walk(fields[j].value, name + fields[j].name + "_"))
    ensures out2 == Record(out0, WalkFields(fields[..j + 1], name))
    ensures order2 == order0 + Keys(WalkFields(fields[..j + 1], name))
  {
    var before := WalkFields(fields[..j], name);
    var here := Walk(fields[j].value, name + fields[j].name + "_");
    WalkFieldsStep(fields, j, name);
    RecordStep(out0, out1, out2, before, here, WalkFields(fields[..j + 1], name));
    KeysStep(order0, order1, order2, before, here, WalkFields(fields[..j + 1], name));
  }

  /** The list loop's step, as for fields. */
  lemma ItemStep(items: seq<JsonValue>, j: nat, name: string,
                 out0: map<string, JsonValue>, order0: seq<string>,
                 out1: map<string, JsonValue>, order1: seq<string>,
                 out2: map<string, JsonValue>, order2: seq<string>)
    requires j < |items|
    requires out1 == Record(out0, WalkItems(items[..j], name)) && order1 == order0 + Keys(WalkItems(items[..j], name))
    requires out2 == Record(out1, Walk(items[j], name + NatToString(j) + "_"))
    requires order2 == order1 + Keys(Walk(items[j], name + NatToString(j) + "_"))
    ensures out2 == Record(out0, WalkItems(items[..j + 1], name))
    ensures order2 == order0 + Keys(WalkItems(items[..j + 1], name))
  {
    var before := WalkItems(items[..j], name);
    var here := Walk(items[j], name + NatToString(j) + "_");
    WalkItemsStep(items, j, name);
    RecordStep(out0, out1, out2, before, here, WalkItems(items[..j + 1], name));
    KeysStep(order0, order1, order2, before, here, WalkItems(items[..j + 1], name));
  }

  /** One more field walked. */
  lemma WalkFieldsStep(fields: seq<Field>, j: nat, name: string)
    requires j < |fields|
    ensures WalkFields(fields[..j + 1], name) == WalkFields(fields[..j], name) + Walk(fields[j].value, name + fields[j].name + "_")
  {
    assert fields[..j + 1][..j] == fields[..j];
  }

  /** One more list element walked. */
  lemma WalkItemsStep(items: seq<JsonValue>, j: nat, name: string)
    requires j < |items|
    ensures WalkItems(items[..j + 1], name) == WalkItems(items[..j], name) + Walk(items[j], name + NatToString(j) + "_")
  {
    assert items[..j + 1][..j] == items[..j];
  }

  /** `flatten_json(y)`: the leaf dictionary and the visit order. */
  method FlattenJson(y: JsonValue) returns (out: map<string, JsonValue>, order: seq<string>)
    ensures out == FlatMap(y) && order == FlatOrder(y)
  {
    var f := new Flattener();
    f.Flatten(y, "");
    out, order := f.out, f.order;
  }

  // ----- the dictionary: keys and values -----------------------------------

  /** Recording `a` and then `b` is recording `a + b`. */
  lemma {:induction false} RecordAppend(m: map<string, JsonValue>, a: seq<Leaf>, b: seq<Leaf>)
    ensures Record(m, a + b) == Record(Record(m, a), b)
  {
    if b == [] {
      assert a + b == a;
    } else {
      var l := b[|b| - 1];
      assert (a + b)[..|a + b| - 1] == a + b[..|b| - 1];
      assert (a + b)[|a + b| - 1] == l;
      RecordAppend(m, a, b[..|b| - 1]);
      calc {
        Record(m, a + b);
        Record(m, a + b[..|b| - 1])[l.key := l.value];
        Record(Record(m, a), b[..|b| - 1])[l.key := l.value];
        Record(Record(m, a), b);
      }
    }
  }

  lemma KeysAppend(a: seq<Leaf>, b: seq<Leaf>)
    ensures Keys(a + b) == Keys(a) + Keys(b)
  {
    assert forall i :: 0 <= i < |a + b| ==> (a + b)[i] == if i < |a| then a[i] else b[i - |a|];
  }

  /** The dictionary's keys are the old keys plus every recorded key. */
  lemma {:induction false} RecordKeys(m: map<string, JsonValue>, leaves: seq<Leaf>)
    ensures forall k :: k in Record(m, leaves) <==> k in m || k in Keys(leaves)
  {
    if leaves != [] {
      var n := |leaves| - 1;
      RecordKeys(m, leaves[..n]);
      assert Keys(leaves) == Keys(leaves[..n]) + [leaves[n].key];
    }
  }

  /** On a key collision the dictionary keeps the value of the leaf visited
      last; an earlier leaf with the same key is overwritten. */
  lemma {:induction false} RecordLastWins(m: map<string, JsonValue>, leaves: seq<Leaf>, i: nat)
    requires i < |leaves|
    requires forall j :: i < j < |leaves| ==> leaves[j].key != leaves[i].key
    ensures leaves[i].key in Record(m, leaves)
    ensures Record(m, leaves)[leaves[i].key] == leaves[i].value
  {
    var n := |leaves| - 1;
    if i < n {
      RecordLastWins(m, leaves[..n], i);
    }
  }

  /** Every value in the dictionary is a value already there or one of the
      recorded leaves. */
  lemma {:induction false} RecordValues(m: map<string, JsonValue>, leaves: seq<Leaf>, k: string)
    requires k in Record(m, leaves)
    ensures (k in m && Record(m, leaves)[k] == m[k])
         || exists i :: 0 <= i < |leaves| && leaves[i] == Leaf(k, Record(m, leaves)[k])
  {
    if leaves != [] {
      var n := |leaves| - 1;
      if leaves[n].key != k {
        RecordValues(m, leaves[..n], k);
        if !(k in m && Record(m, leaves)[k] == m[k]) {
          var i :| 0 <= i < n && leaves[..n][i] == Leaf(k, Record(m, leaves[..n])[k]);
          assert leaves[i] == Leaf(k, Record(m, leaves)[k]);
        }
      }
    }
  }

  // ----- leaves are scalars ---------------------------------------------------

  /** The walk stops only at scalars: no leaf is a dict or a list. */
  lemma {:induction false} WalkScalar(v: JsonValue, name: string)
    ensures forall i :: 0 <= i < |Walk(v, name)| ==> IsScalar(Walk(v, name)[i].value)
    decreases v
  {
    match v
    case Object(fields) => WalkFieldsScalar(fields, name);
    case Array(items) => WalkItemsScalar(items, name);
    case _ =>
  }

  lemma {:induction false} WalkFieldsScalar(fields: seq<Field>, name: string)
    ensures forall i :: 0 <= i < |WalkFields(fields, name)| ==> IsScalar(WalkFields(fields, name)[i].value)
    decreases fields
  {
    if fields != [] {
      var f := fields[|fields| - 1];
      WalkFieldsScalar(fields[..|fields| - 1], name);
      WalkScalar(f.value, name + f.name + "_");
    }
  }

  lemma {:induction false} WalkItemsScalar(items: seq<JsonValue>, name: string)
    ensures forall i :: 0 <= i < |WalkItems(items, name)| ==> IsScalar(WalkItems(items, name)[i].value)
    decreases items
  {
    if items != [] {
      var i := |items| - 1;
      WalkItemsScalar(items[..i], name);
      WalkScalar(items[i], name + NatToString(i) + "_");
    }
  }

  /** No value stored in the flattened dictionary is a dict or a list. */
  lemma FlatMapScalar(v: JsonValue)
    ensures forall k :: k in FlatMap(v) ==> IsScalar(FlatMap(v)[k])
  {
    WalkScalar(v, "");
    forall k | k in FlatMap(v)
      ensures IsScalar(FlatMap(v)[k])
    {
      RecordValues(map[], Walk(v, ""), k);
    }
  }

  /** Every entry of `order` is a key of `out`, and every key of `out`
      occurs in `order`. */
  lemma OrderMatchesMapKeys(v: JsonValue)
    ensures forall k :: k in FlatMap(v) <==> k in FlatOrder(v)
  {
    RecordKeys(map[], Walk(v, ""));
  }

  /** The value stored under a key is that of the last leaf with that key. */
  lemma FlatMapKeepsLastLeaf(v: JsonValue, i: nat)
    requires i < |Walk(v, "")|
    requires forall j :: i < j < |Walk(v, "")| ==> Walk(v, "")[j].key != Walk(v, "")[i].key
    ensures Walk(v, "")[i].key in FlatMap(v)
    ensures FlatMap(v)[Walk(v, "")[i].key] == Walk(v, "")[i].value
  {
    RecordLastWins(map[], Walk(v, ""), i);
  }

  // ----- keys are paths joined by `_` ------------------------------------------

  /** A scalar leaf with the path of field names and list indices from the root. */
  datatype PathLeaf = PathLeaf(path: seq<string>, value: JsonValue)

  /** The scalar leaves of `v` in depth-first, field-order sequence, each with
      its path: an independent description of what the walk visits. */
  function PathLeaves(v: JsonValue): seq<PathLeaf>
    decreases v
  {
    match v
    case Object(fields) => FieldPaths(fields)
    case Array(items) => ItemPaths(items)
    case _ => [PathLeaf([], v)]
  }

  function FieldPaths(fields: seq<Field>): seq<PathLeaf>
    decreases fields
  {
    if fields == [] then []
    else
      var f := fields[|fields| - 1];
      FieldPaths(fields[..|fields| - 1]) + Under(f.name, PathLeaves(f.value))
  }

  function ItemPaths(items: seq<JsonValue>): seq<PathLeaf>
    decreases items
  {
    if items == [] then []
    else
      var i := |items| - 1;
      ItemPaths(items[..i]) + Under(NatToString(i), PathLeaves(items[i]))
  }

  /** The same leaves one level further down, below segment `seg`. */
  function Under(seg: string, ps: seq<PathLeaf>): seq<PathLeaf>
  {
    seq(|ps|, i requires 0 <= i < |ps| => PathLeaf([seg] + ps[i].path, ps[i].value))
  }

  /** Every segment followed by `_`: the prefix the walk has built on reaching a leaf. */
  function Trail(path: seq<string>): string
  {
    if path == [] then [] else path[0] + "_" + Trail(path[1..])
  }

  /** The leaves keyed as the walk keys them when started with prefix `name`. */
  function Keyed(ps: seq<PathLeaf>, name: string): seq<Leaf>
  {
    seq(|ps|, i requires 0 <= i < |ps| => Leaf(DropLast(name + Trail(ps[i].path)), ps[i].value))
  }

  lemma KeyedAppend(a: seq<PathLeaf>, b: seq<PathLeaf>, name: string)
    ensures Keyed(a + b, name) == Keyed(a, name) + Keyed(b, name)
  {
    assert forall i :: 0 <= i < |a + b| ==> (a + b)[i] == if i < |a| then a[i] else b[i - |a|];
  }

  lemma KeyedUnder(seg: string, ps: seq<PathLeaf>, name: string)
    ensures Keyed(Under(seg, ps), name) == Keyed(ps, name + seg + "_")
  {
    forall i | 0 <= i < |ps|
      ensures Keyed(Under(seg, ps), name)[i] == Keyed(ps, name + seg + "_")[i]
    {
      var p := ps[i].path;
      assert ([seg] + p)[1..] == p;
      assert name + Trail([seg] + p) == (name + seg + "_") + Trail(p);
    }
  }

  /** The walk with prefix `name` visits exactly the path leaves of `v`, in
      the same order, keying each by `name` followed by its trail. */
  lemma {:induction false} WalkIsKeyedPaths(v: JsonValue, name: string)
    ensures Walk(v, name) == Keyed(PathLeaves(v), name)
    decreases v
  {
    match v
    case Object(fields) => FieldsAreKeyedPaths(fields, name);
    case Array(items) => ItemsAreKeyedPaths(items, name);
    case _ => assert name + Trail([]) == name;
  }

  lemma {:induction false} FieldsAreKeyedPaths(fields: seq<Field>, name: string)
    ensures WalkFields(fields, name) == Keyed(FieldPaths(fields), name)
    decreases fields
  {
    if fields != [] {
      var f := fields[|fields| - 1];
      FieldsAreKeyedPaths(fields[..|fields| - 1], name);
      WalkIsKeyedPaths(f.value, name + f.name + "_");
      KeyedUnder(f.name, PathLeaves(f.value), name);
      KeyedAppend(FieldPaths(fields[..|fields| - 1]), Under(f.name, PathLeaves(f.value)), name);
    }
  }

  lemma {:induction false} ItemsAreKeyedPaths(items: seq<JsonValue>, name: string)
    ensures WalkItems(items, name) == Keyed(ItemPaths(items), name)
    decreases items
  {
    if items != [] {
      var i := |items| - 1;
      ItemsAreKeyedPaths(items[..i], name);
      WalkIsKeyedPaths(items[i], name + NatToString(i) + "_");
      KeyedUnder(NatToString(i), PathLeaves(items[i]), name);
      KeyedAppend(ItemPaths(items[..i]), Under(NatToString(i), PathLeaves(items[i])), name);
    }
  }

  /** Cutting the final `_` off a trail gives the segments joined by `_`. */
  lemma {:induction false} TrailIsJoin(path: seq<string>)
    ensures DropLast(Trail(path)) == Join(path, '_')
  {
    if |path| > 1 {
      TrailIsJoin(path[1..]);
      assert Trail(path) == path[0] + "_" + Trail(path[1..]);
      assert Trail(path[1..]) != [];
    } else if |path| == 1 {
      assert Trail(path) == path[0] + "_";
    }
  }

  /** The flattened keys are the leaves' paths joined by `_`, one key per
      scalar leaf, in depth-first, field-order sequence; a scalar at the
      root has the key "". */
  lemma FlatOrderIsJoinedPaths(v: JsonValue)
    ensures |FlatOrder(v)| == |PathLeaves(v)|
    ensures forall i :: 0 <= i < |FlatOrder(v)| ==>
              FlatOrder(v)[i] == Join(PathLeaves(v)[i].path, '_')
              && Walk(v, "")[i].value == PathLeaves(v)[i].value
  {
    WalkIsKeyedPaths(v, "");
    forall i | 0 <= i < |PathLeaves(v)|
      ensures FlatOrder(v)[i] == Join(PathLeaves(v)[i].path, '_')
    {
      TrailIsJoin(PathLeaves(v)[i].path);
      assert "" + Trail(PathLeaves(v)[i].path) == Trail(PathLeaves(v)[i].path);
    }
  }

  // ----- empty containers -------------------------------------------------------

  lemma {:induction false} WalkFieldsAppend(a: seq<Field>, b: seq<Field>, name: string)
    ensures WalkFields(a + b, name) == WalkFields(a, name) + WalkFields(b, name)
  {
    if b == [] {
      assert a + b == a;
    } else {
      var f := b[|b| - 1];
      var init := b[..|b| - 1];
      var ab := a + b;
      var here := Walk(f.value, name + f.name + "_");
      assert ab[..|ab| - 1] == a + init;
      assert ab[|ab| - 1] == f;
      assert WalkFields(ab, name) == WalkFields(a + init, name) + here;
      assert WalkFields(b, name) == WalkFields(init, name) + here;
      WalkFieldsAppend(a, init, name);
      assert WalkFields(a, name) + WalkFields(init, name) + here == WalkFields(a, name) + (WalkFields(init, name) + here);
    }
  }

  /** A field whose value is an empty dict or an empty list adds nothing,
      wherever it stands among its siblings. */
  lemma EmptyFieldAddsNothing(before: seq<Field>, a: string, e: JsonValue, after: seq<Field>)
    requires e == Object([]) || e == Array([])
    ensures FlatOrder(Object(before + [Field(a, e)] + after)) == FlatOrder(Object(before + after))
    ensures FlatMap(Object(before + [Field(a, e)] + after)) == FlatMap(Object(before + after))
  {
    WalkFieldsAppend(before + [Field(a, e)], after, "");
    WalkFieldsAppend(before, [Field(a, e)], "");
    WalkFieldsAppend(before, after, "");
    assert WalkFields([Field(a, e)], "") == [] by {
      assert [Field(a, e)][..0] == [];
      assert Walk(e, a + "_") == [];
    }
    assert WalkFields(before + [Field(a, e)] + after, "") == WalkFields(before + after, "");
  }

  /** An empty dict or list appended to a list adds nothing. */
  lemma EmptyItemAddsNothing(items: seq<JsonValue>, e: JsonValue)
    requires e == Object([]) || e == Array([])
    ensures FlatOrder(Array(items + [e])) == FlatOrder(Array(items))
    ensures FlatMap(Array(items + [e])) == FlatMap(Array(items))
  {
    assert (items + [e])[..|items|] == items;
    assert Walk(e, NatToString(|items|) + "_") == [];
    assert WalkItems(items + [e], "") == WalkItems(items, "");
  }

  // ----- worked examples ----------------------------------------------------------

  /** `{"a": {"b": 1}}` flattens to `{"a_b": 1}`, `{"a": ["x"]}` to
      `{"a_0": "x"}`, and a bare scalar to `{"": scalar}`. */
  lemma KeyExamples()
    ensures FlatOrder(Object([Field("a", Object([Field("b", Num(1.0))]))])) == ["a_b"]
    ensures FlatOrder(Object([Field("a", Array([Str("x")]))])) == ["a_0"]
    ensures FlatMap(Str("x")) == map["" := Str("x")]
  {
    var inner := [Field("b", Num(1.0))];
    assert inner[..0] == [];
    assert "" + "a" + "_" == "a_";
    assert "a_" + "b" + "_" == "a_b_";
    assert DropLast("a_b_") == "a_b";
    assert WalkFields(inner, "a_") == [Leaf("a_b", Num(1.0))];
    var outer := [Field("a", Object(inner))];
    assert outer[..0] == [];
    assert WalkFields(outer, "") == [Leaf("a_b", Num(1.0))];
    assert Keys([Leaf("a_b", Num(1.0))]) == ["a_b"];

    var xs := [Str("x")];
    assert xs[..0] == [];
    assert NatToString(0) == "0";
    assert "a_" + "0" + "_" == "a_0_";
    assert DropLast("a_0_") == "a_0";
    assert WalkItems(xs, "a_") == [Leaf("a_0", Str("x"))];
    var withList := [Field("a", Array(xs))];
    assert withList[..0] == [];
    assert WalkFields(withList, "") == [Leaf("a_0", Str("x"))];
    assert Keys([Leaf("a_0", Str("x"))]) == ["a_0"];
  }

  /** `{"a_b": 1, "a": {"b": 2}}`: a field whose own name holds `_`. */
  const CollidingDocument: JsonValue := Object([Field("a_b", Num(1.0)), Field("a", Object([Field("b", Num(2.0))]))])

  /** Both leaves of `CollidingDocument` get the key `a_b`. */
  lemma CollidingLeaves()
    ensures Walk(CollidingDocument, "") == [Leaf("a_b", Num(1.0)), Leaf("a_b", Num(2.0))]
  {
    var inner := [Field("b", Num(2.0))];
    assert inner[..0] == [];
    assert "" + "a" + "_" == "a_";
    assert "a_" + "b" + "_" == "a_b_";
    assert "" + "a_b" + "_" == "a_b_";
    assert DropLast("a_b_") == "a_b";
    assert WalkFields(inner, "a_") == [Leaf("a_b", Num(2.0))];
    var fs := CollidingDocument.fields;
    assert fs[..1] == [Field("a_b", Num(1.0))];
    assert fs[..1][..0] == [];
    assert WalkFields(fs[..1], "") == [Leaf("a_b", Num(1.0))];
  }

  /** `order` lists the colliding key twice, and `out` keeps the value of
      the later leaf. */
  lemma CollisionExample()
    ensures FlatOrder(CollidingDocument) == ["a_b", "a_b"]
    ensures FlatMap(CollidingDocument) == map["a_b" := Num(2.0)]
  {
    CollidingLeaves();
    var leaves := [Leaf("a_b", Num(1.0)), Leaf("a_b", Num(2.0))];
    assert Keys(leaves) == ["a_b", "a_b"];
    assert leaves[..1][..0] == [];
    assert Record(map[], leaves[..1]) == map["a_b" := Num(1.0)];
  }
}
