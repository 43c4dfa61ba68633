/** The document pruner of the project converter (lib/ProjectToOpenApi.ts):
    `removeEmptyJson`, applied once to the merged OpenAPI document before it
    is written out. */
module ProjectToOpenApi {
  import opened JsonValue

  /** An item of a non-empty array value: an object item is pruned and goes
      when pruning gives `undefined`, a `null` item goes, and anything else
      (an array held by the array included) stays as it is. */
  function PruneItem(item: Json): (r: Option<Json>)
    ensures item.Null? ==> r == None
    ensures !item.Null? && !item.Obj? ==> r == Some(item)
    ensures item.Obj? ==> (r.None? <==> item.fields == [])
    ensures r.Some? ==> r.value.Obj? == item.Obj?
    decreases item, 1
  {
    match item
    case Obj(fs) => (match Prune(fs) case Some(p) => Some(Obj(p)) case None => None)
    case Null => None
    case _ => Some(item)
  }

  /** `value.map(...).filter(...)`: the surviving items, in order. */
  function PruneItems(items: seq<Json>): (r: seq<Json>)
    ensures |r| <= |items|
    ensures Null !in r
    decreases items, 2
  {
    if items == [] then []
    else
      var rest := PruneItems(items[1..]);
      match PruneItem(items[0])
      case Some(x) => [x] + rest
      case None => rest
  }

  /** The pruned concatenation is the concatenation of the pruned parts. */
  lemma {:induction false} PruneItemsConcat(a: seq<Json>, b: seq<Json>)
    ensures PruneItems(a + b) == PruneItems(a) + PruneItems(b)
    decreases |a|
  {
    if a == [] {
      assert a + b == b;
    } else {
      assert (a + b)[0] == a[0];
      assert (a + b)[1..] == a[1..] + b;
      PruneItemsConcat(a[1..], b);
    }
  }

  /** Pruning an array works item by item: each item, wherever it stands,
      stays as its pruned form or goes, in its own place and once. */
  lemma PruneItemsPerItem(a: seq<Json>, x: Json, b: seq<Json>)
    ensures PruneItems(a + [x] + b) ==
      PruneItems(a) + (match PruneItem(x) case Some(y) => [y] case None => []) + PruneItems(b)
  {
    PruneItemsConcat(a + [x], b);
    PruneItemsConcat(a, [x]);
    PruneOneItem(x);
  }

  lemma PruneOneItem(x: Json)
    ensures PruneItems([x]) == match PruneItem(x) case Some(y) => [y] case None => []
  {
    assert [x][1..] == [];
    assert PruneItems([x][1..]) == [];
  }

  /** What the loop body writes under a key for `value`, or `None` when it
      writes nothing: an empty array, an array whose items all go and an
      empty object are dropped; a scalar, `null` included, is copied. */
  function PruneValue(value: Json): (r: Option<Json>)
    ensures value.Arr? ==> (r.None? <==> PruneItems(value.items) == [])
    ensures value.Arr? && r.Some? ==> r.value.Arr?
    ensures value.Obj? ==> (r.None? <==> value.fields == [])
    ensures value.Obj? && r.Some? ==> r.value.Obj?
    ensures !value.Arr? && !value.Obj? ==> r == Some(value)
    decreases value, 0
  {
    match value
    case Arr(items) =>
      if |items| > 0 then
        var kept := PruneItems(items);
        if |kept| > 0 then Some(Arr(kept)) else None
      else None
    case Obj(fs) => (match Prune(fs) case Some(p) => Some(Obj(p)) case None => None)
    case _ => Some(value)
  }

  /** The assignments `result[key] = ...` the loop makes, in order. */
  function PruneWrites(fs: seq<Field>): (r: seq<Field>)
    ensures |r| <= |fs|
    decreases fs, 1
  {
    if fs == [] then []
    else
      assert fs[0].1 < fs[0];
      var rest := PruneWrites(fs[1..]);
      match PruneValue(fs[0].1)
      case Some(v) => [(fs[0].0, v)] + rest
      case None => rest
  }

  /** `removeEmptyJson` on an object's entries: `undefined` (`None`) when
      there are none, otherwise a fresh object receiving the writes. The
      test looks at the entries before pruning, so an object all of whose
      entries are dropped comes out as `{}`, not as `undefined`. */
  function Prune(fs: seq<Field>): (r: Option<seq<Field>>)
    ensures r.None? <==> fs == []
    ensures r.Some? ==> UniqueKeys(r.value)
    decreases fs, 2
  {
    if fs == [] then None
    else
      var ws := PruneWrites(fs);
      AssignKeepsUniqueKeys([], ws);
      Some(Assign([], ws))
  }

  /** `removeEmptyJson(document)`: `undefined` for `null` and for a document
      with no own entries; otherwise an object. */
  function RemoveEmptyJson(doc: Json): (r: Option<Json>)
    ensures doc.Null? || doc.Bool? || doc.Num? ==> r == None
    ensures doc.Obj? ==> (r.None? <==> doc.fields == [])
    ensures r.Some? ==> r.value.Obj? && PrunedObject(r.value.fields, false)
  {
    if doc.Null? then None
    else
      var fs := OwnEntries(doc);
      PruneShape(fs);
      match Prune(fs)
      case Some(p) => Some(Obj(p))
      case None => None
  }

  // ----- The shape of the output -----

  /** The shape pruning leaves: keys distinct, no array value empty, no
      `null` item in an array value, and the same of every object reached
      through object values and array items. An array held by an array is
      not looked into, and `null` directly under a key is allowed. With
      `settled`, every object below the top has an entry as well. */
  predicate PrunedObject(fs: seq<Field>, settled: bool)
    decreases fs, 1
  {
    UniqueKeys(fs) && PrunedEntries(fs, settled)
  }

  predicate PrunedEntries(fs: seq<Field>, settled: bool)
    decreases fs, 0
  {
    fs == [] ||
    (assert fs[0].1 < fs[0];
     PrunedValue(fs[0].1, settled) && PrunedEntries(fs[1..], settled))
  }

  predicate PrunedValue(v: Json, settled: bool)
    decreases v, 2
  {
    match v
    case Arr(items) => items != [] && PrunedItems(items, settled)
    case Obj(gs) => (settled ==> gs != []) && PrunedObject(gs, settled)
    case _ => true
  }

  predicate PrunedItems(items: seq<Json>, settled: bool)
    decreases items, 3
  {
    items == [] || (PrunedItem(items[0], settled) && PrunedItems(items[1..], settled))
  }

  predicate PrunedItem(item: Json, settled: bool)
    decreases item, 4
  {
    match item
    case Null => false
    case Obj(gs) => (settled ==> gs != []) && PrunedObject(gs, settled)
    case _ => true
  }

  lemma {:induction false} PrunedEntriesAll(fs: seq<Field>, settled: bool)
    ensures PrunedEntries(fs, settled) <==> forall e :: e in fs ==> PrunedValue(e.1, settled)
  {
    if fs != [] {
      PrunedEntriesAll(fs[1..], settled);
      assert forall e :: e in fs <==> e == fs[0] || e in fs[1..];
    }
  }

  // ----- Keys and entries -----

  /** The written keys are input keys, in input order. */
  lemma {:induction false} PruneWritesKeys(fs: seq<Field>)
    ensures IsSubsequence(Keys(PruneWrites(fs)), Keys(fs))
  {
    if fs != [] {
      PruneWritesKeys(fs[1..]);
      var rest := PruneWrites(fs[1..]);
      assert Keys(fs) == [fs[0].0] + Keys(fs[1..]);
      match PruneValue(fs[0].1)
      case Some(v) =>
        KeysConcat([(fs[0].0, v)], rest);
        assert Keys([(fs[0].0, v)] + rest) == [fs[0].0] + Keys(rest);
      case None =>
    }
  }

  /** Distinct input keys are written once each. */
  lemma {:induction false} PruneWritesUnique(fs: seq<Field>)
    requires UniqueKeys(fs)
    ensures UniqueKeys(PruneWrites(fs))
  {
    if fs != [] {
      UniqueKeysTail(fs);
      PruneWritesUnique(fs[1..]);
      var rest := PruneWrites(fs[1..]);
      PruneWritesKeys(fs[1..]);
      SubsequenceMembers(Keys(rest), Keys(fs[1..]));
      match PruneValue(fs[0].1)
      case Some(v) =>
        var ws := [(fs[0].0, v)] + rest;
        assert ws[1..] == rest;
        UniqueKeysTail(ws);
      case None =>
    }
  }

  /** With distinct input keys the pruned object is exactly the writes: the
      kept entries in their input order. */
  lemma PruneOfUniqueKeys(fs: seq<Field>)
    requires UniqueKeys(fs) && fs != []
    ensures Prune(fs) == Some(PruneWrites(fs))
    ensures IsSubsequence(Keys(Prune(fs).value), Keys(fs))
  {
    var ws := PruneWrites(fs);
    PruneWritesUnique(fs);
    AssignFresh([], ws);
    assert [] + ws == ws;
    assert Prune(fs) == Some(Assign([], ws));
    PruneWritesKeys(fs);
  }

  /** Whatever the input, every key of the pruned object is an input key:
      nothing is added or renamed. */
  lemma PrunedKeysFromInput(fs: seq<Field>)
    requires fs != []
    ensures forall k :: k in Keys(Prune(fs).value) ==> k in Keys(fs)
  {
    var ws := PruneWrites(fs);
    AssignKeys([], ws);
    PruneWritesKeys(fs);
    SubsequenceMembers(Keys(ws), Keys(fs));
  }

  /** The write for key `k`, if any, comes from `k`'s own entry. */
  lemma {:induction false} PruneWritesLookup(fs: seq<Field>, k: string)
    requires UniqueKeys(fs)
    ensures Lookup(PruneWrites(fs), k) ==
      match Lookup(fs, k) case None => None case Some(v) => PruneValue(v)
  {
    if fs != [] {
      UniqueKeysTail(fs);
      PruneWritesLookup(fs[1..], k);
      var rest := PruneWrites(fs[1..]);
      match PruneValue(fs[0].1)
      case Some(v) =>
        assert ([(fs[0].0, v)] + rest)[1..] == rest;
      case None =>
        if k == fs[0].0 {
          PruneWritesKeys(fs[1..]);
          SubsequenceMembers(Keys(rest), Keys(fs[1..]));
        }
    }
  }

  /** Key by key (input keys distinct, as in any JavaScript object): an
      input key is kept exactly when its value prunes to something, and then
      holds that pruned value; no other key appears. */
  lemma PrunedLookup(fs: seq<Field>, k: string)
    requires UniqueKeys(fs) && fs != []
    ensures Lookup(Prune(fs).value, k) ==
      match Lookup(fs, k) case None => None case Some(v) => PruneValue(v)
    ensures k in Keys(Prune(fs).value) <==> k in Keys(fs) && PruneValue(Lookup(fs, k).value).Some?
  {
    PruneOfUniqueKeys(fs);
    PruneWritesLookup(fs, k);
  }

  // ----- Shape of the output -----

  lemma {:induction false} PruneItemShape(item: Json)
    ensures PruneItem(item).Some? ==> PrunedItem(PruneItem(item).value, false)
    decreases item, 1
  {
    match item
    case Obj(fs) => PruneShape(fs);
    case _ =>
  }

  lemma {:induction false} PruneItemsShape(items: seq<Json>)
    ensures PrunedItems(PruneItems(items), false)
    decreases items, 2
  {
    if items != [] {
      PruneItemShape(items[0]);
      PruneItemsShape(items[1..]);
      var rest := PruneItems(items[1..]);
      match PruneItem(items[0])
      case Some(x) => assert ([x] + rest)[1..] == rest;
      case None =>
    }
  }

  lemma {:induction false} PruneValueShape(v: Json)
    ensures PruneValue(v).Some? ==> PrunedValue(PruneValue(v).value, false)
    decreases v, 0
  {
    match v
    case Arr(items) => PruneItemsShape(items);
    case Obj(fs) => PruneShape(fs);
    case _ =>
  }

  lemma {:induction false} PruneWritesShape(fs: seq<Field>)
    ensures PrunedEntries(PruneWrites(fs), false)
    decreases fs, 1
  {
    if fs != [] {
      assert fs[0].1 < fs[0];
      PruneValueShape(fs[0].1);
      PruneWritesShape(fs[1..]);
      var rest := PruneWrites(fs[1..]);
      match PruneValue(fs[0].1)
      case Some(v) => assert ([(fs[0].0, v)] + rest)[1..] == rest;
      case None =>
    }
  }

  /** Whatever the input, the pruned object has the pruned shape: no empty
      array and no `null` array item survives at any level pruning visits.
      Empty objects may remain. */
  lemma {:induction false} PruneShape(fs: seq<Field>)
    ensures Prune(fs).Some? ==> PrunedObject(Prune(fs).value, false)
    decreases fs, 2
  {
    if fs != [] {
      var ws := PruneWrites(fs);
      PruneWritesShape(fs);
      PrunedEntriesAll(ws, false);
      AssignEntries([], ws);
      PrunedEntriesAll(Assign([], ws), false);
    }
  }

  // ----- Fixed points -----

  lemma {:induction false} PruneItemSettled(item: Json)
    requires PrunedItem(item, true)
    ensures PruneItem(item) == Some(item)
    decreases item, 1
  {
    match item
    case Obj(fs) => PruneSettled(fs);
    case _ =>
  }

  lemma {:induction false} PruneItemsSettled(items: seq<Json>)
    requires PrunedItems(items, true)
    ensures PruneItems(items) == items
    decreases items, 2
  {
    if items != [] {
      PruneItemSettled(items[0]);
      PruneItemsSettled(items[1..]);
    }
  }

  lemma {:induction false} PruneValueSettled(v: Json)
    requires PrunedValue(v, true)
    ensures PruneValue(v) == Some(v)
    decreases v, 0
  {
    match v
    case Arr(items) => PruneItemsSettled(items);
    case Obj(fs) => PruneSettled(fs);
    case _ =>
  }

  lemma {:induction false} PruneWritesSettled(fs: seq<Field>)
    requires PrunedEntries(fs, true)
    ensures PruneWrites(fs) == fs
    decreases fs, 1
  {
    if fs != [] {
      assert fs[0].1 < fs[0];
      PruneValueSettled(fs[0].1);
      PruneWritesSettled(fs[1..]);
    }
  }

  lemma {:induction false} PruneSettled(fs: seq<Field>)
    requires fs != [] && PrunedObject(fs, true)
    ensures Prune(fs) == Some(fs)
    decreases fs, 2
  {
    PruneWritesSettled(fs);
    AssignFresh([], fs);
    assert [] + fs == fs;
    assert Prune(fs) == Some(Assign([], PruneWrites(fs)));
  }

  lemma {:induction false} FixedItem(item: Json)
    requires PruneItem(item) == Some(item)
    ensures PrunedItem(item, true)
    decreases item, 1
  {
    match item
    case Obj(fs) => FixedObject(fs);
    case _ =>
  }

  lemma {:induction false} FixedItems(items: seq<Json>)
    requires PruneItems(items) == items
    ensures PrunedItems(items, true)
    decreases items, 2
  {
    if items != [] {
      var rest := PruneItems(items[1..]);
      match PruneItem(items[0])
      case Some(x) =>
        assert ([x] + rest)[1..] == rest && ([x] + rest)[0] == x;
        FixedItem(items[0]);
        FixedItems(items[1..]);
      case None =>
    }
  }

  lemma {:induction false} FixedValue(v: Json)
    requires PruneValue(v) == Some(v)
    ensures PrunedValue(v, true)
    decreases v, 0
  {
    match v
    case Arr(items) => FixedItems(items);
    case Obj(fs) => FixedObject(fs);
    case _ =>
  }

  lemma {:induction false} FixedWrites(fs: seq<Field>)
    requires PruneWrites(fs) == fs
    ensures PrunedEntries(fs, true)
    decreases fs, 1
  {
    if fs != [] {
      assert fs[0].1 < fs[0];
      var rest := PruneWrites(fs[1..]);
      match PruneValue(fs[0].1)
      case Some(v) =>
        assert ([(fs[0].0, v)] + rest)[1..] == rest && ([(fs[0].0, v)] + rest)[0] == (fs[0].0, v);
        FixedValue(fs[0].1);
        FixedWrites(fs[1..]);
      case None =>
    }
  }

  lemma {:induction false} FixedObject(fs: seq<Field>)
    requires Prune(fs) == Some(fs)
    ensures PrunedObject(fs, true)
    decreases fs, 2
  {
    PruneWritesUnique(fs);
    AssignFresh([], PruneWrites(fs));
    FixedWrites(fs);
  }

  /** The objects pruning leaves unchanged are exactly the non-empty ones of
      settled shape: pruned shape with no empty object below the top. */
  lemma PruneFixedPoints(fs: seq<Field>)
    ensures Prune(fs) == Some(fs) <==> fs != [] && PrunedObject(fs, true)
  {
    if Prune(fs) == Some(fs) {
      FixedObject(fs);
    }
    if fs != [] && PrunedObject(fs, true) {
      PruneSettled(fs);
    }
  }

  /** The first pass always leaves the pruned shape; pruning twice gives
      what pruning once gives exactly when that output has an entry at the
      top and its shape is settled, no empty object below the top (an
      object emptied by the first pass is dropped by the second). */
  lemma PruneTwice(fs: seq<Field>)
    requires fs != []
    ensures var p := Prune(fs).value;
      && PrunedObject(p, false)
      && (Prune(p) == Some(p) <==> p != [] && PrunedObject(p, true))
  {
    PruneShape(fs);
    PruneFixedPoints(Prune(fs).value);
  }

  // ----- Examples -----

  /** A single write into a fresh object. */
  lemma SingleWrite(e: Field)
    ensures Assign([], [e]) == [e]
  {
    AssignFresh([], [e]);
    assert [] + [e] == [e];
  }

  /** `{a: {}, b: [], c: null, d: x}` prunes to `{c: null, d: x}`: the
      empty object and the empty array go, `null` under a key stays. */
  lemma MixedEntriesExample(a: string, b: string, c: string, d: string, x: real)
    requires a != b && a != c && a != d && b != c && b != d && c != d
    ensures RemoveEmptyJson(Obj([(a, Obj([])), (b, Arr([])), (c, Null), (d, Num(x))]))
      == Some(Obj([(c, Null), (d, Num(x))]))
  {
    var fs := [(a, Obj([])), (b, Arr([])), (c, Null), (d, Num(x))];
    var ws := [(c, Null), (d, Num(x))];
    assert fs[3..] == [(d, Num(x))] + [];
    EntryWritten(d, Num(x), [], Num(x));
    assert fs[2..] == [(c, Null)] + fs[3..];
    EntryWritten(c, Null, fs[3..], Null);
    assert fs[1..] == [(b, Arr([]))] + fs[2..];
    EntryDropped(b, Arr([]), fs[2..]);
    assert fs == [(a, Obj([]))] + fs[1..];
    EntryDropped(a, Obj([]), fs[1..]);
    assert PruneWrites(fs) == ws;
    assert Keys(ws[1..]) == [d];
    assert Keys(ws) == [c, d];
    FreshWrites(fs, ws);
    PrunedDocument(fs, ws);
  }

  /** Writes with distinct keys land in the fresh object as they are. */
  lemma FreshWrites(fs: seq<Field>, ws: seq<Field>)
    requires fs != [] && PruneWrites(fs) == ws && UniqueKeys(ws)
    ensures Prune(fs) == Some(ws)
  {
    AssignFresh([], ws);
    assert [] + ws == ws;
  }

  /** The document result is the pruned entries as an object. */
  lemma PrunedDocument(fs: seq<Field>, p: seq<Field>)
    requires Prune(fs) == Some(p)
    ensures RemoveEmptyJson(Obj(fs)) == Some(Obj(p))
  {
    assert OwnEntries(Obj(fs)) == fs;
  }

  /** An entry whose value prunes to nothing writes nothing. */
  lemma EntryDropped(k: string, v: Json, rest: seq<Field>)
    requires PruneValue(v) == None
    ensures PruneWrites([(k, v)] + rest) == PruneWrites(rest)
  {
    assert ([(k, v)] + rest)[1..] == rest;
  }

  /** An entry whose value prunes to `p` writes `p` under its key. */
  lemma EntryWritten(k: string, v: Json, rest: seq<Field>, p: Json)
    requires PruneValue(v) == Some(p)
    ensures PruneWrites([(k, v)] + rest) == [(k, p)] + PruneWrites(rest)
  {
    assert ([(k, v)] + rest)[1..] == rest;
  }

  /** Inside an array: an empty object item and a `null` item go, while an
      empty array held by the array stays. */
  lemma ArrayItemsExample(a: string)
    ensures RemoveEmptyJson(Obj([(a, Arr([Arr([]), Null, Obj([])]))]))
      == Some(Obj([(a, Arr([Arr([])]))]))
  {
    var items := [Arr([]), Null, Obj([])];
    assert PruneItem(Obj([])) == None;
    assert PruneItem(Null) == None;
    assert PruneItem(Arr([])) == Some(Arr([]));
    var i2, i1 := items[2..], items[1..];
    assert i2 == [Obj([])] && i2[1..] == [];
    assert PruneItems(i2) == [];
    assert i1[0] == Null && i1[1..] == i2;
    assert PruneItems(i1) == [];
    assert items[0] == Arr([]) && items[1..] == i1;
    assert PruneItems(items) == [Arr([])];
    var fs := [(a, Arr(items))];
    assert PruneValue(Arr(items)) == Some(Arr([Arr([])]));
    assert fs[1..] == [];
    assert PruneWrites(fs) == [(a, Arr([Arr([])]))];
    SingleWrite((a, Arr([Arr([])])));
    assert Prune(fs) == Some([(a, Arr([Arr([])]))]);
  }

  /** One pass is not idempotent: `{a: {b: {}}}` prunes to `{a: {}}`, which
      prunes further to `{}`. */
  lemma PruneNotIdempotent(a: string, b: string)
    ensures RemoveEmptyJson(Obj([(a, Obj([(b, Obj([]))]))])) == Some(Obj([(a, Obj([]))]))
    ensures RemoveEmptyJson(Obj([(a, Obj([]))])) == Some(Obj([]))
  {
    var inner := [(b, Obj([]))];
    assert PruneValue(Obj([])) == None;
    assert inner[1..] == [];
    assert PruneWrites(inner) == [];
    assert Prune(inner) == Some(Assign([], []));
    assert Prune(inner) == Some([]);
    var outer := [(a, Obj(inner))];
    assert outer[1..] == [];
    assert PruneValue(Obj(inner)) == Some(Obj([]));
    assert PruneWrites(outer) == [(a, Obj([]))];
    SingleWrite((a, Obj([])));
    assert Prune(outer) == Some([(a, Obj([]))]);
    var emptied := [(a, Obj([]))];
    assert emptied[1..] == [];
    assert PruneWrites(emptied) == [];
    assert Prune(emptied) == Some([]);
  }
}
