/** The JSON Schema converter (lib/JsonSchemaToOpenApi.ts): `cleanJsonSchema`,
    which rewrites a parsed JSON Schema document into an OpenAPI 3.0 schema
    object, and the packaging of one cleaned file as a components fragment. */
module JsonSchemaToOpenApi {
  import opened JsonValue
  import Constants
  import Text

  /** `[...UNSUPPORTED_KEYWORDS, ...removeProps]`: the keys skipped at the level
      `removeProps` is given to. The recursive calls leave `removeProps` at its
      default `[]`, so nested levels skip the unsupported keywords only. */
  function RemovalList(removeProps: seq<string>): seq<string> {
    Constants.UnsupportedKeywords + removeProps
  }

  /** `value.map(typeStr => ({ type: typeStr }))` */
  function TypeVariants(types: seq<Json>): (r: seq<Json>)
    ensures |r| == |types|
    ensures forall i :: 0 <= i < |types| ==> r[i] == Obj([("type", types[i])])
  {
    if types == [] then [] else [Obj([("type", types[0])])] + TypeVariants(types[1..])
  }

  /** The filter after the map: an object survives when it has an entry left,
      any other item unless it is `null`. */
  predicate KeepItem(item: Json) {
    match item
    case Obj(fs) => |fs| > 0
    case Null => false
    case _ => true
  }

  /** The map step: an object item is cleaned with no extra keys to remove;
      anything else, an array nested in the array included, stays as it is. */
  function CleanItem(item: Json): Json
    decreases item
  {
    match item
    case Obj(fs) => Obj(CleanSchema(fs, []))
    case _ => item
  }

  /** `value.map(...).filter(...)` for an array under any key but `type`. */
  function CleanItems(items: seq<Json>): (r: seq<Json>)
    ensures |r| <= |items|
    ensures forall x :: x in r ==> KeepItem(x)
    decreases items
  {
    if items == [] then []
    else
      var item := CleanItem(items[0]);
      var rest := CleanItems(items[1..]);
      if KeepItem(item) then [item] + rest else rest
  }

  /** The assignment to `result` the loop body makes for one entry, if any. */
  function CleanWrite(key: string, value: Json, removals: seq<string>): Option<Field>
    decreases value
  {
    if key in removals then None
    else match value
      case Arr(items) =>
        if key == "type" then Some(("oneOf", Arr(TypeVariants(items))))
        else
          var kept := CleanItems(items);
          if |kept| > 0 then Some((key, Arr(kept))) else None
      case Obj(fs) => Some((key, Obj(CleanSchema(fs, []))))
      case _ => Some((key, value))
  }

  /** The assignments the loop makes, entry by entry, in order. */
  function CleanWrites(fs: seq<Field>, removals: seq<string>): seq<Field>
    decreases fs, 0
  {
    if fs == [] then []
    else
      assert fs[0].1 < fs[0];
      var rest := CleanWrites(fs[1..], removals);
      match CleanWrite(fs[0].0, fs[0].1, removals)
      case Some(w) => [w] + rest
      case None => rest
  }

  /** `cleanJsonSchema(schema, removeProps)`: a fresh object receives the
      assignments in order (a second write to `oneOf` overwrites in place). */
  function CleanSchema(schema: seq<Field>, removeProps: seq<string>): (r: seq<Field>)
    ensures UniqueKeys(r)
    decreases schema, 1
  {
    var ws := CleanWrites(schema, RemovalList(removeProps));
    AssignKeepsUniqueKeys([], ws);
    Assign([], ws)
  }

  /** Every assignment the loop makes comes from one entry of the input. */
  lemma {:induction false} WriteOrigin(fs: seq<Field>, removals: seq<string>)
    ensures forall w :: w in CleanWrites(fs, removals) ==>
      exists e :: e in fs && CleanWrite(e.0, e.1, removals) == Some(w)
  {
    if fs != [] {
      WriteOrigin(fs[1..], removals);
      assert forall e :: e in fs[1..] ==> e in fs;
    }
  }

  /** An entry writes its own key, or `oneOf` in place of an array-valued
      `type`; a key to be removed writes nothing. */
  lemma CleanWriteKey(key: string, value: Json, removals: seq<string>)
    requires CleanWrite(key, value, removals).Some?
    ensures key !in removals
    ensures var w := CleanWrite(key, value, removals).value;
      w.0 == key || (w.0 == "oneOf" && key == "type" && value.Arr?)
  {
  }

  /** No key of the cleaned object is one to remove, save `oneOf` when an
      array-valued `type` produced it: the removal check looks at the input
      key `type`, not at the `oneOf` it is turned into. */
  lemma CleanedKeys(schema: seq<Field>, removeProps: seq<string>)
    ensures forall k :: k in Keys(CleanSchema(schema, removeProps)) ==>
      || (k in Keys(schema) && k !in RemovalList(removeProps))
      || (k == "oneOf" && "type" !in RemovalList(removeProps) && exists ts :: ("type", Arr(ts)) in schema)
  {
    var removals := RemovalList(removeProps);
    var ws := CleanWrites(schema, removals);
    AssignKeys([], ws);
    WriteOrigin(schema, removals);
    forall k | k in Keys(CleanSchema(schema, removeProps))
      ensures || (k in Keys(schema) && k !in removals)
              || (k == "oneOf" && "type" !in removals && exists ts :: ("type", Arr(ts)) in schema)
    {
      KeyHasEntry(ws, k);
      var w :| w in ws && w.0 == k;
      var e :| e in schema && CleanWrite(e.0, e.1, removals) == Some(w);
      WrittenKey(schema, removals, e, w);
    }
  }

  /** The key an entry would write: its own, or `oneOf` for an array-valued
      `type`. */
  function RenamedKey(e: Field): string {
    if e.0 == "type" && e.1.Arr? then "oneOf" else e.0
  }

  /** The input's keys in order, each renamed as its entry would write it. */
  function RenamedKeys(fs: seq<Field>): (ks: seq<string>)
    ensures |ks| == |fs|
  {
    if fs == [] then [] else [RenamedKey(fs[0])] + RenamedKeys(fs[1..])
  }

  /** Without an array-valued `type`, no key is renamed. */
  lemma {:induction false} NothingRenamed(fs: seq<Field>)
    requires forall ts :: ("type", Arr(ts)) !in fs
    ensures RenamedKeys(fs) == Keys(fs)
  {
    if fs != [] {
      assert fs[0] in fs;
      forall ts ensures ("type", Arr(ts)) !in fs[1..] {
        assert ("type", Arr(ts)) !in fs;
      }
      NothingRenamed(fs[1..]);
    }
  }

  /** The loop writes the keys in input order, skipping the dropped entries. */
  lemma {:induction false} WrittenKeysInOrder(fs: seq<Field>, removals: seq<string>)
    ensures IsSubsequence(Keys(CleanWrites(fs, removals)), RenamedKeys(fs))
  {
    if fs != [] {
      var rest := CleanWrites(fs[1..], removals);
      WrittenKeysInOrder(fs[1..], removals);
      var renamed := RenamedKeys(fs[1..]);
      assert RenamedKeys(fs) == [RenamedKey(fs[0])] + renamed;
      match CleanWrite(fs[0].0, fs[0].1, removals)
      case Some(w) =>
        assert w.0 == RenamedKey(fs[0]);
        assert Keys([w] + rest) == [w.0] + Keys(rest);
        SubsequencePrefix([w.0], Keys(rest), renamed);
      case None =>
        assert ([RenamedKey(fs[0])] + renamed)[1..] == renamed;
    }
  }

  /** The cleaned object lists its keys in the input's order: the keys it
      keeps, with an array-valued `type` turned into `oneOf` in its place (or
      in the place of an earlier `oneOf` it overwrites). */
  lemma CleanedKeysInOrder(schema: seq<Field>, removeProps: seq<string>)
    ensures IsSubsequence(Keys(CleanSchema(schema, removeProps)), RenamedKeys(schema))
    ensures (forall ts :: ("type", Arr(ts)) !in schema) ==>
      IsSubsequence(Keys(CleanSchema(schema, removeProps)), Keys(schema))
  {
    var ws := CleanWrites(schema, RemovalList(removeProps));
    AssignKeyOrder([], ws);
    assert Keys([]) + Keys(ws) == Keys(ws);
    WrittenKeysInOrder(schema, RemovalList(removeProps));
    SubsequenceTrans(Keys(CleanSchema(schema, removeProps)), Keys(ws), RenamedKeys(schema));
    if forall ts :: ("type", Arr(ts)) !in schema {
      NothingRenamed(schema);
    }
  }

  /** The key one entry writes is its own, kept, or `oneOf` for a `type`
      array. */
  lemma WrittenKey(schema: seq<Field>, removals: seq<string>, e: Field, w: Field)
    requires e in schema && CleanWrite(e.0, e.1, removals) == Some(w)
    ensures || (w.0 in Keys(schema) && w.0 !in removals)
            || (w.0 == "oneOf" && "type" !in removals && exists ts :: ("type", Arr(ts)) in schema)
  {
    CleanWriteKey(e.0, e.1, removals);
    if w.0 == e.0 {
      var i :| 0 <= i < |schema| && schema[i] == e;
      KeysAt(schema, i);
    } else {
      assert e == ("type", Arr(e.1.items));
    }
  }

  /** The value an entry writes under its own key, if it writes one. */
  function OwnWrite(key: string, value: Json, removals: seq<string>): Option<Json> {
    match CleanWrite(key, value, removals)
    case Some(w) => if w.0 == key then Some(w.1) else None
    case None => None
  }

  /** An array-valued `type` that is not removed: its entry writes `oneOf`. */
  ghost predicate TypeWritesOneOf(fs: seq<Field>, removals: seq<string>) {
    "type" !in removals && exists ts :: ("type", Arr(ts)) in fs
  }

  /** With distinct input keys, a key is written by its own entry only,
      unless it is `oneOf` and an array-valued `type` also writes it. */
  lemma {:induction false} WritesToKey(fs: seq<Field>, removals: seq<string>, k: string)
    requires UniqueKeys(fs)
    requires k != "oneOf" || !TypeWritesOneOf(fs, removals)
    ensures LookupLast(CleanWrites(fs, removals), k) ==
      match Lookup(fs, k) case None => None case Some(v) => OwnWrite(k, v, removals)
  {
    if fs != [] {
      UniqueKeysTail(fs);
      WritesToKey(fs[1..], removals, k);
      var rest := CleanWrites(fs[1..], removals);
      match CleanWrite(fs[0].0, fs[0].1, removals)
      case Some(w) =>
        CleanWriteKey(fs[0].0, fs[0].1, removals);
        if w.0 != fs[0].0 {
          assert fs[0] == ("type", Arr(fs[0].1.items));
        }
        assert ([w] + rest)[1..] == rest;
      case None =>
    }
  }

  /** How each input key appears in the cleaned object (input keys distinct,
      as in any JavaScript object; the schema's own `oneOf` only when no
      array-valued `type` writes over it): a key to remove is gone; an
      array-valued `type` is gone (it became `oneOf`); a scalar is copied; a
      nested object is cleaned without `removeProps` and kept even when it
      comes out empty; any other array is cleaned item by item and dropped
      when nothing is left of it. */
  lemma CleanedEntry(schema: seq<Field>, removeProps: seq<string>, k: string)
    requires UniqueKeys(schema)
    requires k in Keys(schema)
    requires k != "oneOf" || !TypeWritesOneOf(schema, RemovalList(removeProps))
    ensures var r, v := Lookup(CleanSchema(schema, removeProps), k), Lookup(schema, k).value;
      && (k in RemovalList(removeProps) ==> r == None)
      && (k !in RemovalList(removeProps) ==>
           && (v.Null? || v.Bool? || v.Num? || v.Str? ==> r == Some(v))
           && (v.Obj? ==> r == Some(Obj(CleanSchema(v.fields, []))))
           && (v.Arr? && k == "type" ==> r == None)
           && (v.Arr? && k != "type" ==>
                r == if CleanItems(v.items) == [] then None else Some(Arr(CleanItems(v.items)))))
  {
    WritesToKey(schema, RemovalList(removeProps), k);
  }

  /** The items `cleanJsonSchema` would produce before filtering. */
  function MappedItems(items: seq<Json>): seq<Json> {
    seq(|items|, i requires 0 <= i < |items| => CleanItem(items[i]))
  }

  /** Cleaning an array keeps the mapped items in order, drops exactly the
      ones that are `null` or came out as an empty object, and keeps every
      other item (a non-object item unchanged). */
  lemma {:induction false} CleanItemsFilter(items: seq<Json>)
    ensures IsSubsequence(CleanItems(items), MappedItems(items))
    ensures forall i :: 0 <= i < |items| && KeepItem(CleanItem(items[i])) ==>
      CleanItem(items[i]) in CleanItems(items)
    ensures forall i :: 0 <= i < |items| && !items[i].Obj? && !items[i].Null? ==>
      items[i] in CleanItems(items)
  {
    if items != [] {
      CleanItemsFilter(items[1..]);
      var m, m' := MappedItems(items), MappedItems(items[1..]);
      assert m[1..] == m';
      forall i | 1 <= i < |items|
        ensures CleanItem(items[i]) == m'[i - 1]
      {
      }
    }
  }

  /** The cleaned concatenation is the concatenation of the cleaned parts. */
  lemma {:induction false} CleanItemsConcat(a: seq<Json>, b: seq<Json>)
    ensures CleanItems(a + b) == CleanItems(a) + CleanItems(b)
    decreases |a|
  {
    if a == [] {
      assert a + b == b;
    } else {
      assert (a + b)[0] == a[0];
      assert (a + b)[1..] == a[1..] + b;
      CleanItemsConcat(a[1..], b);
    }
  }

  /** Cleaning an array works item by item: each item, wherever it stands,
      is kept exactly when its mapped form survives the filter, in its own
      place and once. */
  lemma CleanItemsPerItem(a: seq<Json>, x: Json, b: seq<Json>)
    ensures CleanItems(a + [x] + b) ==
      CleanItems(a) + (if KeepItem(CleanItem(x)) then [CleanItem(x)] else []) + CleanItems(b)
  {
    CleanItemsConcat(a + [x], b);
    CleanItemsConcat(a, [x]);
    assert [x][1..] == [];
  }

  /** An array-valued `type` comes out as `oneOf`, one `{ type: t }` per
      element in the same order, whatever its length, and no `type` key is
      emitted (when the input has no `oneOf` of its own to overwrite it). */
  lemma TypeArrayBecomesOneOf(schema: seq<Field>, removeProps: seq<string>, ts: seq<Json>)
    requires UniqueKeys(schema)
    requires Lookup(schema, "type") == Some(Arr(ts))
    requires "type" !in RemovalList(removeProps)
    requires "oneOf" !in Keys(schema)
    ensures "type" !in Keys(CleanSchema(schema, removeProps))
    ensures exists vs ::
              && Lookup(CleanSchema(schema, removeProps), "oneOf") == Some(Arr(vs))
              && |vs| == |ts|
              && forall i :: 0 <= i < |ts| ==> vs[i] == Obj([("type", ts[i])])
  {
    var removals := RemovalList(removeProps);
    CleanedEntry(schema, removeProps, "type");
    OneOfWrites(schema, removals, ts);
    var vs := TypeVariants(ts);
    assert Lookup(CleanSchema(schema, removeProps), "oneOf") == Some(Arr(vs));
  }

  lemma {:induction false} OneOfWrites(fs: seq<Field>, removals: seq<string>, ts: seq<Json>)
    requires UniqueKeys(fs)
    requires Lookup(fs, "type") == Some(Arr(ts))
    requires "type" !in removals
    requires "oneOf" !in Keys(fs)
    ensures LookupLast(CleanWrites(fs, removals), "oneOf") == Some(Arr(TypeVariants(ts)))
  {
    UniqueKeysTail(fs);
    var rest := CleanWrites(fs[1..], removals);
    if fs[0].0 == "type" {
      WritesToKey(fs[1..], removals, "type");
      NoOneOfWrites(fs[1..], removals);
      assert ([("oneOf", Arr(TypeVariants(ts)))] + rest)[1..] == rest;
    } else {
      OneOfWrites(fs[1..], removals, ts);
      match CleanWrite(fs[0].0, fs[0].1, removals)
      case Some(w) =>
        CleanWriteKey(fs[0].0, fs[0].1, removals);
        assert ([w] + rest)[1..] == rest;
      case None =>
    }
  }

  /** Without a `type` or `oneOf` entry nothing is written to `oneOf`. */
  lemma {:induction false} NoOneOfWrites(fs: seq<Field>, removals: seq<string>)
    requires "type" !in Keys(fs) && "oneOf" !in Keys(fs)
    ensures "oneOf" !in Keys(CleanWrites(fs, removals))
  {
    if fs != [] {
      NoOneOfWrites(fs[1..], removals);
      var rest := CleanWrites(fs[1..], removals);
      match CleanWrite(fs[0].0, fs[0].1, removals)
      case Some(w) =>
        CleanWriteKey(fs[0].0, fs[0].1, removals);
        assert Keys([w] + rest) == [w.0] + Keys(rest);
      case None =>
    }
  }

  /** Every array held by a `type` key, at any depth, is a non-empty list of
      type names. */
  predicate TypeListsAreNames(j: Json)
    decreases j
  {
    match j
    case Obj(fs) => FieldsTypeListsAreNames(fs)
    case Arr(items) => ItemsTypeListsAreNames(items)
    case _ => true
  }

  predicate TypeListIsNames(e: Field) {
    e.0 == "type" && e.1.Arr? ==> |e.1.items| > 0 && forall t :: t in e.1.items ==> t.Str?
  }

  predicate FieldsTypeListsAreNames(fs: seq<Field>)
    decreases fs
  {
    fs == [] ||
    (assert fs[0].1 < fs[0];
     TypeListIsNames(fs[0]) && TypeListsAreNames(fs[0].1) && FieldsTypeListsAreNames(fs[1..]))
  }

  predicate ItemsTypeListsAreNames(items: seq<Json>)
    decreases items
  {
    items == [] || (TypeListsAreNames(items[0]) && ItemsTypeListsAreNames(items[1..]))
  }

  /** An entry the loop writes back unchanged. */
  predicate Stable(e: Field, removals: seq<string>) {
    CleanWrite(e.0, e.1, removals) == Some(e)
  }

  lemma {:induction false} StableWritesAreFixed(fs: seq<Field>, removals: seq<string>)
    requires forall e :: e in fs ==> Stable(e, removals)
    ensures CleanWrites(fs, removals) == fs
  {
    if fs != [] {
      assert fs[0] in fs;
      StableWritesAreFixed(fs[1..], removals);
    }
  }

  /** The `oneOf` variants of a list of type names are clean already. */
  lemma {:induction false} VariantsAreClean(ts: seq<Json>)
    requires forall t :: t in ts ==> t.Str?
    ensures CleanItems(TypeVariants(ts)) == TypeVariants(ts)
  {
    if ts != [] {
      Constants.UnsupportedKeywordsFacts();
      var v := Obj([("type", ts[0])]);
      assert TypeVariants(ts) == [v] + TypeVariants(ts[1..]);
      assert CleanWrites([("type", ts[0])], RemovalList([])) == [("type", ts[0])];
      AssignFresh([], [("type", ts[0])]);
      assert CleanItem(v) == v;
      VariantsAreClean(ts[1..]);
    }
  }

  lemma ItemIdempotent(item: Json)
    requires TypeListsAreNames(item)
    ensures CleanItem(CleanItem(item)) == CleanItem(item)
    decreases item
  {
    if item.Obj? {
      SchemaIdempotent(item.fields, []);
    }
  }

  lemma ItemsIdempotent(items: seq<Json>)
    requires ItemsTypeListsAreNames(items)
    ensures CleanItems(CleanItems(items)) == CleanItems(items)
    decreases items
  {
    if items != [] {
      ItemIdempotent(items[0]);
      ItemsIdempotent(items[1..]);
      var item := CleanItem(items[0]);
      var rest := CleanItems(items[1..]);
      if KeepItem(item) {
        assert ([item] + rest)[1..] == rest;
      }
    }
  }

  lemma WriteIsStable(key: string, value: Json, removals: seq<string>)
    requires CleanWrite(key, value, removals).Some?
    requires "oneOf" !in removals
    requires TypeListIsNames((key, value)) && TypeListsAreNames(value)
    ensures Stable(CleanWrite(key, value, removals).value, removals)
    decreases value
  {
    match value
    case Arr(items) =>
      if key == "type" {
        VariantsAreClean(items);
      } else {
        ItemsIdempotent(items);
      }
    case Obj(fs) =>
      SchemaIdempotent(fs, []);
    case _ =>
  }

  lemma AllWritesStable(fs: seq<Field>, removals: seq<string>)
    requires FieldsTypeListsAreNames(fs)
    requires "oneOf" !in removals
    ensures forall w :: w in CleanWrites(fs, removals) ==> Stable(w, removals)
    decreases fs, 0
  {
    if fs != [] {
      assert fs[0].1 < fs[0];
      AllWritesStable(fs[1..], removals);
      if CleanWrite(fs[0].0, fs[0].1, removals).Some? {
        WriteIsStable(fs[0].0, fs[0].1, removals);
      }
    }
  }

  /** Cleaning twice with the same `removeProps` is cleaning once, provided
      every `type` array is a non-empty list of names (an empty one turns into
      an empty `oneOf`, which the second pass drops) and `oneOf` is not itself
      listed for removal (the second pass would remove the `oneOf` the first
      one made). */
  lemma SchemaIdempotent(schema: seq<Field>, removeProps: seq<string>)
    requires FieldsTypeListsAreNames(schema)
    requires "oneOf" !in removeProps
    ensures CleanSchema(CleanSchema(schema, removeProps), removeProps) == CleanSchema(schema, removeProps)
    decreases schema, 1
  {
    var removals := RemovalList(removeProps);
    Constants.UnsupportedKeywordsFacts();
    assert "oneOf" !in removals;
    var ws := CleanWrites(schema, removals);
    AllWritesStable(schema, removals);
    var once := CleanSchema(schema, removeProps);
    assert once == Assign([], ws);
    AssignEntries([], ws);
    assert forall e :: e in once ==> Stable(e, removals);
    StableWritesAreFixed(once, removals);
    assert UniqueKeys(once);
    AssignFresh([], once);
    assert CleanSchema(once, removeProps) == Assign([], CleanWrites(once, removals));
  }

  /** The keywords every level below the top is cleaned of. */
  const NestedRemovals: seq<string> := RemovalList([])

  lemma {:induction false} VariantsStripped(ts: seq<Json>)
    requires forall t :: t in ts ==> t.Str?
    ensures ItemsAvoidKeys(TypeVariants(ts), NestedRemovals)
  {
    if ts != [] {
      Constants.UnsupportedKeywordsFacts();
      assert TypeVariants(ts) == [Obj([("type", ts[0])])] + TypeVariants(ts[1..]);
      var variant: seq<Field> := [("type", ts[0])];
      assert NestedRemovals == Constants.UnsupportedKeywords;
      assert variant[0].1.Str? && variant[1..] == [];
      assert AvoidsKeys(variant, NestedRemovals, NestedRemovals);
      VariantsStripped(ts[1..]);
    }
  }

  lemma CleanItemStripped(item: Json)
    requires TypeListsAreNames(item)
    ensures ItemAvoidsKeys(CleanItem(item), NestedRemovals)
    decreases item
  {
    if item.Obj? {
      SchemaStripped(item.fields, []);
    }
  }

  lemma CleanItemsStripped(items: seq<Json>)
    requires ItemsTypeListsAreNames(items)
    ensures ItemsAvoidKeys(CleanItems(items), NestedRemovals)
    decreases items
  {
    if items != [] {
      CleanItemStripped(items[0]);
      CleanItemsStripped(items[1..]);
      var item := CleanItem(items[0]);
      var rest := CleanItems(items[1..]);
      if KeepItem(item) {
        assert ([item] + rest)[1..] == rest;
      }
    }
  }

  lemma WriteStripped(key: string, value: Json, removals: seq<string>)
    requires CleanWrite(key, value, removals).Some?
    requires "oneOf" !in removals
    requires TypeListIsNames((key, value)) && TypeListsAreNames(value)
    ensures var w := CleanWrite(key, value, removals).value;
      w.0 !in removals && ValueAvoidsKeys(w.1, NestedRemovals)
    decreases value
  {
    match value
    case Arr(items) =>
      if key == "type" {
        VariantsStripped(items);
      } else {
        CleanItemsStripped(items);
      }
    case Obj(fs) =>
      SchemaStripped(fs, []);
    case _ =>
  }

  lemma WritesStripped(fs: seq<Field>, removals: seq<string>)
    requires FieldsTypeListsAreNames(fs)
    requires "oneOf" !in removals
    ensures forall w :: w in CleanWrites(fs, removals) ==> w.0 !in removals && ValueAvoidsKeys(w.1, NestedRemovals)
    decreases fs, 0
  {
    if fs != [] {
      assert fs[0].1 < fs[0];
      WritesStripped(fs[1..], removals);
      if CleanWrite(fs[0].0, fs[0].1, removals).Some? {
        WriteStripped(fs[0].0, fs[0].1, removals);
      }
    }
  }

  /** Provided `type` arrays list names and `oneOf` is not itself to be
      removed: the cleaned object has no key from the unsupported keywords or
      `removeProps`, and every level below it, which was cleaned with
      `removeProps` left empty, has no unsupported keyword. */
  lemma SchemaStripped(schema: seq<Field>, removeProps: seq<string>)
    requires FieldsTypeListsAreNames(schema)
    requires "oneOf" !in removeProps
    ensures AvoidsKeys(CleanSchema(schema, removeProps), RemovalList(removeProps), NestedRemovals)
    decreases schema, 1
  {
    var removals := RemovalList(removeProps);
    Constants.UnsupportedKeywordsFacts();
    assert "oneOf" !in removals;
    var ws := CleanWrites(schema, removals);
    WritesStripped(schema, removals);
    AssignEntries([], ws);
    AvoidsKeysEntries(Assign([], ws), removals, NestedRemovals);
  }

  /** `cleanJsonSchema(YAML.parse(text), removeProps)` on whatever the parser
      returned: `Object.entries` throws on `null`, lists the indices of an
      array or a string, and nothing for the other primitives. */
  function CleanDocument(parsed: Json, removeProps: seq<string>): (r: Result<seq<Field>>)
    ensures r.TypeError? <==> parsed.Null?
    ensures parsed.Obj? ==> r == Ok(CleanSchema(parsed.fields, removeProps))
    ensures parsed.Bool? || parsed.Num? ==> r == Ok([])
  {
    if parsed.Null? then TypeError else Ok(CleanSchema(OwnEntries(parsed), removeProps))
  }

  /** `String(v)` for a value found in a cleaned document. The cleaner builds
      its objects with `Object.create(null)`: they have no `toString`, so
      converting one throws, while objects the parser built (reachable only
      through an array nested in an array) print as `[object Object]`.
      Numbers print as `numberText` says. */
  function JsString(v: Json, nullPrototype: bool, numberText: real -> string): (r: Result<string>)
    ensures v.Str? ==> r == Ok(v.s)
    ensures v.Obj? ==> (r.TypeError? <==> nullPrototype)
    ensures !v.Obj? && !v.Arr? ==> r.Ok?
    decreases v, 0
  {
    match v
    case Null => Ok("null")
    case Bool(b) => Ok(if b then "true" else "false")
    case Num(n) => Ok(numberText(n))
    case Str(s) => Ok(s)
    case Obj(_) => if nullPrototype then TypeError else Ok("[object Object]")
    case Arr(items) => JoinItems(items, nullPrototype, numberText)
  }

  /** `Array.prototype.join(",")`: `null` prints as the empty string; an
      array item is printed with the parser's prototypes. */
  function JoinItems(items: seq<Json>, nullPrototype: bool, numberText: real -> string): (r: Result<string>)
    ensures items == [] ==> r == Ok("")
    decreases items, 2
  {
    if items == [] then Ok("")
    else
      match ItemText(items[0], nullPrototype, numberText)
      case TypeError => TypeError
      case Ok(first) =>
        if |items| == 1 then Ok(first)
        else
          match JoinItems(items[1..], nullPrototype, numberText)
          case TypeError => TypeError
          case Ok(rest) => Ok(first + "," + rest)
  }

  function ItemText(item: Json, nullPrototype: bool, numberText: real -> string): Result<string>
    decreases item, 1
  {
    match item
    case Null => Ok("")
    case Arr(_) => JsString(item, false, numberText)
    case _ => JsString(item, nullPrototype, numberText)
  }

  /** `{ [title]: parsed }`: the computed key is `String(title)`, which is
      `"undefined"` when the cleaned schema has no title. */
  function ComponentKey(title: Option<Json>, numberText: real -> string): (r: Result<string>)
    ensures title.None? ==> r == Ok("undefined")
    ensures title.Some? && title.value.Str? ==> r == Ok(title.value.s)
    ensures title.Some? && title.value.Obj? ==> r.TypeError?
  {
    match title
    case None => Ok("undefined")
    case Some(t) => JsString(t, true, numberText)
  }

  /** `{ components: { schemas: { [key]: schema } } }` */
  function ComponentsDocument(key: string, schema: seq<Field>): Json {
    Obj([("components", Obj([("schemas", Obj([(key, Obj(schema))]))]))])
  }

  /** What one JSON Schema file becomes: the components document to be
      serialised and the base name it is written under. */
  datatype Packaged = Packaged(document: Json, basename: string)

  /** The transform applied to one parsed JSON Schema file: clean it, file it
      under its title, remove the title from the emitted value, and name the
      output `<title>.components.yaml` when the title is truthy, otherwise
      the input name with a final `.json` (any character before `json`)
      turned into `.yaml`. */
  function TransformSchemaFile(parsed: Json, removeProps: seq<string>, basename: string, numberText: real -> string)
    : (r: Result<Packaged>)
    ensures parsed.Null? ==> r.TypeError?
    ensures r.Ok? ==>
      exists key, body ::
        && r.value.document == ComponentsDocument(key, body)
        && "title" !in Keys(body)
        && forall k :: k != "title" ==> Lookup(body, k) == Lookup(CleanDocument(parsed, removeProps).value, k)
  {
    match CleanDocument(parsed, removeProps)
    case TypeError => TypeError
    case Ok(cleaned) =>
      var title := Lookup(cleaned, "title");
      match ComponentKey(title, numberText)
      case TypeError => TypeError
      case Ok(key) =>
        var name :=
          if title.Some? && Truthy(title.value) then key + ".components.yaml"
          else Text.ReplaceJsonExtension(basename);
        Ok(Packaged(ComponentsDocument(key, Delete(cleaned, "title")), name))
  }

  /** A schema object with a non-empty string title (and `title` not itself
      listed for removal) is filed under that title, without it, in
      `<title>.components.yaml`. */
  lemma TitledSchemaFile(schema: seq<Field>, removeProps: seq<string>, basename: string, numberText: real -> string, t: string)
    requires UniqueKeys(schema)
    requires Lookup(schema, "title") == Some(Str(t)) && t != ""
    requires "title" !in removeProps
    ensures TransformSchemaFile(Obj(schema), removeProps, basename, numberText)
      == Ok(Packaged(ComponentsDocument(t, Delete(CleanSchema(schema, removeProps), "title")), t + ".components.yaml"))
  {
    var cleaned := CleanSchema(schema, removeProps);
    Constants.UnsupportedKeywordsFacts();
    assert "title" !in RemovalList(removeProps);
    CleanedEntry(schema, removeProps, "title");
    TitledDocument(Obj(schema), removeProps, basename, numberText, cleaned, t);
  }

  /** A cleaned document with a non-empty string title is filed under it. */
  lemma TitledDocument(parsed: Json, removeProps: seq<string>, basename: string, numberText: real -> string,
                       cleaned: seq<Field>, t: string)
    requires CleanDocument(parsed, removeProps) == Ok(cleaned)
    requires Lookup(cleaned, "title") == Some(Str(t)) && t != ""
    ensures TransformSchemaFile(parsed, removeProps, basename, numberText)
      == Ok(Packaged(ComponentsDocument(t, Delete(cleaned, "title")), t + ".components.yaml"))
  {
    assert ComponentKey(Some(Str(t)), numberText) == Ok(t);
  }

  /** Without a title, or with `title` listed for removal, the schema is filed
      under the key `"undefined"` and the file keeps its name, `.json`
      becoming `.yaml`. */
  lemma UntitledSchemaFile(schema: seq<Field>, removeProps: seq<string>, basename: string, numberText: real -> string)
    requires "title" !in Keys(schema) || "title" in removeProps
    ensures TransformSchemaFile(Obj(schema), removeProps, basename, numberText)
      == Ok(Packaged(ComponentsDocument("undefined", CleanSchema(schema, removeProps)), Text.ReplaceJsonExtension(basename)))
  {
    var cleaned := CleanSchema(schema, removeProps);
    CleanedKeys(schema, removeProps);
    assert "title" !in Keys(cleaned);
  }

  /** Whatever the parsed document, a title left in the cleaned document that
      `String` can print is the component key, and the truthiness of the
      title alone decides the file name: `<key>.components.yaml` when it is
      truthy, the input name with `.json` turned into `.yaml` when not. */
  lemma TitleNamesFile(parsed: Json, removeProps: seq<string>, basename: string, numberText: real -> string,
                       cleaned: seq<Field>, t: Json)
    requires CleanDocument(parsed, removeProps) == Ok(cleaned)
    requires Lookup(cleaned, "title") == Some(t) && JsString(t, true, numberText).Ok?
    ensures var key := JsString(t, true, numberText).value;
      TransformSchemaFile(parsed, removeProps, basename, numberText)
        == Ok(Packaged(ComponentsDocument(key, Delete(cleaned, "title")),
                       if Truthy(t) then key + ".components.yaml" else Text.ReplaceJsonExtension(basename)))
  {
    assert ComponentKey(Some(t), numberText) == JsString(t, true, numberText);
  }

  /** A scalar title (string, number, boolean or `null`, and `title` not
      listed for removal) is always the component key, as `String` prints
      it; the file is named after it only when the title is truthy, and a
      falsy one (`""`, `0`, `false`, `null`) leaves the input name with
      `.json` turned into `.yaml`. */
  lemma ScalarTitleFile(schema: seq<Field>, removeProps: seq<string>, basename: string, numberText: real -> string, t: Json)
    requires UniqueKeys(schema)
    requires Lookup(schema, "title") == Some(t) && !t.Obj? && !t.Arr?
    requires "title" !in removeProps
    ensures var key := JsString(t, true, numberText).value;
      TransformSchemaFile(Obj(schema), removeProps, basename, numberText)
        == Ok(Packaged(ComponentsDocument(key, Delete(CleanSchema(schema, removeProps), "title")),
                       if Truthy(t) then key + ".components.yaml" else Text.ReplaceJsonExtension(basename)))
  {
    Constants.UnsupportedKeywordsFacts();
    assert "title" !in RemovalList(removeProps);
    CleanedEntry(schema, removeProps, "title");
    TitleNamesFile(Obj(schema), removeProps, basename, numberText, CleanSchema(schema, removeProps), t);
  }

  /** An array-valued title (not listed for removal) is cleaned item by
      item. When nothing is left of it, it is dropped and the file is
      untitled; otherwise it is truthy, so the joined text, when it can be
      formed, is both the key and the file name. */
  lemma ArrayTitleFile(schema: seq<Field>, removeProps: seq<string>, basename: string, numberText: real -> string, items: seq<Json>)
    requires UniqueKeys(schema)
    requires Lookup(schema, "title") == Some(Arr(items))
    requires "title" !in removeProps
    ensures CleanItems(items) == [] ==>
      TransformSchemaFile(Obj(schema), removeProps, basename, numberText)
        == Ok(Packaged(ComponentsDocument("undefined", CleanSchema(schema, removeProps)), Text.ReplaceJsonExtension(basename)))
    ensures CleanItems(items) != [] ==>
      TransformSchemaFile(Obj(schema), removeProps, basename, numberText)
        == match JsString(Arr(CleanItems(items)), true, numberText)
           case TypeError => TypeError
           case Ok(key) => Ok(Packaged(ComponentsDocument(key, Delete(CleanSchema(schema, removeProps), "title")),
                                      key + ".components.yaml"))
  {
    Constants.UnsupportedKeywordsFacts();
    assert "title" !in RemovalList(removeProps);
    CleanedEntry(schema, removeProps, "title");
    var cleaned := CleanSchema(schema, removeProps);
    if CleanItems(items) == [] {
      assert Lookup(cleaned, "title") == None;
      assert Delete(cleaned, "title") == cleaned;
    } else {
      var t := Arr(CleanItems(items));
      if JsString(t, true, numberText).Ok? {
        TitleNamesFile(Obj(schema), removeProps, basename, numberText, cleaned, t);
      } else {
        assert ComponentKey(Some(t), numberText).TypeError?;
      }
    }
  }

  /** An object-valued title is cleaned into a null-prototype object, which
      cannot be turned into a property key. */
  lemma ObjectTitleThrows(schema: seq<Field>, removeProps: seq<string>, basename: string, numberText: real -> string, t: seq<Field>)
    requires UniqueKeys(schema)
    requires Lookup(schema, "title") == Some(Obj(t))
    requires "title" !in removeProps
    ensures TransformSchemaFile(Obj(schema), removeProps, basename, numberText) == TypeError
  {
    Constants.UnsupportedKeywordsFacts();
    CleanedEntry(schema, removeProps, "title");
  }

  /** `{type: ['string', 'null']}` becomes `{oneOf: [{type: 'string'}, {type: 'null'}]}`. */
  lemma TypeUnionExample()
    ensures CleanSchema([("type", Arr([Str("string"), Str("null")]))], [])
      == [("oneOf", Arr([Obj([("type", Str("string"))]), Obj([("type", Str("null"))])]))]
  {
    var ts := [Str("string"), Str("null")];
    assert TypeVariants(ts) == [Obj([("type", Str("string"))]), Obj([("type", Str("null"))])];
    Constants.UnsupportedKeywordsFacts();
  }

  /** Flattening depends on array-ness, not length: `{type: ['string']}`
      becomes `{oneOf: [{type: 'string'}]}`. */
  lemma SingleTypeExample()
    ensures CleanSchema([("type", Arr([Str("string")]))], []) == [("oneOf", Arr([Obj([("type", Str("string"))])]))]
  {
    assert TypeVariants([Str("string")]) == [Obj([("type", Str("string"))])];
    Constants.UnsupportedKeywordsFacts();
  }

  /** A schema whose entries each clean to themselves is its own cleaning. */
  lemma StableSchemaIsFixed(schema: seq<Field>, removeProps: seq<string>)
    requires UniqueKeys(schema)
    requires forall e :: e in schema ==> Stable(e, RemovalList(removeProps))
    ensures CleanSchema(schema, removeProps) == schema
  {
    StableWritesAreFixed(schema, RemovalList(removeProps));
    AssignFresh([], schema);
  }

  /** A schema with a title, a type and one property named `id`. */
  function WidgetSchema(title: string): seq<Field> {
    [("title", Str(title)), ("type", Str("object")), ("properties", Obj([("id", Obj([("type", Str("integer"))]))]))]
  }

  /** Property names are keys like any other, so a property named after an
      unsupported keyword (`id` here) is stripped from `properties`. */
  lemma WidgetLosesIdProperty(title: string)
    ensures CleanSchema(WidgetSchema(title), [])
      == [("title", Str(title)), ("type", Str("object")), ("properties", Obj([]))]
  {
    var removals := RemovalList([]);
    Constants.UnsupportedKeywordsFacts();
    Constants.Supported("properties");
    assert removals == Constants.UnsupportedKeywords;
    IdPropertyStripped();
    var props := [("id", Obj([("type", Str("integer"))]))];
    var widget := WidgetSchema(title);
    var expected := [("title", Str(title)), ("type", Str("object")), ("properties", Obj([]))];
    assert widget[2..] == [("properties", Obj(props))] + [];
    ObjectEntryCleaned("properties", props, [], removals);
    assert widget[1..] == [("type", Str("object"))] + widget[2..];
    ValueEntryKept("type", Str("object"), widget[2..], removals);
    assert widget == [("title", Str(title))] + widget[1..];
    ValueEntryKept("title", Str(title), widget[1..], removals);
    assert CleanWrites(widget, removals) == expected;
    ThreeFreshKeys(expected[0], expected[1], expected[2]);
    assert [expected[0], expected[1], expected[2]] == expected;
  }

  /** Three entries with distinct keys assigned to a fresh object stay as
      they are. */
  lemma ThreeFreshKeys(a: Field, b: Field, c: Field)
    requires a.0 != b.0 && a.0 != c.0 && b.0 != c.0
    ensures Assign([], [a, b, c]) == [a, b, c]
  {
    var fs := [a, b, c];
    assert Keys(fs[2..]) == [c.0];
    assert Keys(fs[1..]) == [b.0, c.0];
    assert Keys(fs) == [a.0, b.0, c.0];
    AssignFresh([], fs);
    assert [] + fs == fs;
  }

  /** The lone `id` property is an unsupported keyword and goes. */
  lemma IdPropertyStripped()
    ensures CleanSchema([("id", Obj([("type", Str("integer"))]))], []) == []
  {
    assert "id" in RemovalList([]);
  }

  /** A kept primitive entry is written unchanged ahead of the rest. */
  lemma ValueEntryKept(k: string, v: Json, rest: seq<Field>, removals: seq<string>)
    requires k !in removals
    requires v.Null? || v.Bool? || v.Num? || v.Str?
    ensures CleanWrites([(k, v)] + rest, removals) == [(k, v)] + CleanWrites(rest, removals)
  {
    assert ([(k, v)] + rest)[1..] == rest;
  }

  /** A kept object entry is written cleaned ahead of the rest. */
  lemma ObjectEntryCleaned(k: string, fs: seq<Field>, rest: seq<Field>, removals: seq<string>)
    requires k !in removals
    ensures CleanWrites([(k, Obj(fs))] + rest, removals)
      == [(k, Obj(CleanSchema(fs, [])))] + CleanWrites(rest, removals)
  {
    assert ([(k, Obj(fs))] + rest)[1..] == rest;
  }

  /** A file holding that schema with a non-empty title, `Widget` say, is
      filed under the title, without it, in `Widget.components.yaml`; its
      `id` property is gone. */
  lemma WidgetExample(title: string, basename: string, numberText: real -> string)
    requires title != ""
    ensures TransformSchemaFile(Obj(WidgetSchema(title)), [], basename, numberText)
      == Ok(Packaged(
           ComponentsDocument(title, [("type", Str("object")), ("properties", Obj([]))]),
           title + ".components.yaml"))
  {
    var widget := WidgetSchema(title);
    assert Keys(widget[2..]) == ["properties"];
    assert Keys(widget[1..]) == ["type", "properties"];
    assert Keys(widget) == ["title", "type", "properties"];
    TitledSchemaFile(widget, [], basename, numberText, title);
    WidgetLosesIdProperty(title);
    var cleaned := CleanSchema(widget, []);
    assert Delete(cleaned, "title") == cleaned[1..];
  }
}
