/** The TypeScript converter (lib/TypeScriptToOpenApi.ts) from the point
    where the schema generator has produced a definitions table:
    `convertNullToNullable`, `modifySchema`, and the merge of the per-type
    results into `components.schemas`. */
module TypeScriptToOpenApi {
  import opened JsonValue
  import Text

  /** `s` without its element at `i` (`splice(i, 1)`). */
  function RemoveAt<T>(s: seq<T>, i: nat): (r: seq<T>)
    requires i < |s|
    ensures |r| == |s| - 1
    ensures forall j :: 0 <= j < i ==> r[j] == s[j]
    ensures forall j :: i <= j < |r| ==> r[j] == s[j + 1]
  {
    s[..i] + s[i + 1..]
  }

  /** `types.indexOf('null')`: strict equality, so only the string `null`
      matches. */
  function IndexOfNullName(types: seq<Json>): (r: int)
    ensures -1 <= r < |types|
    ensures r == -1 <==> Str("null") !in types
    ensures r >= 0 ==> types[r] == Str("null") && Str("null") !in types[..r]
    decreases |types|
  {
    if types == [] then -1
    else if types[0] == Str("null") then 0
    else
      var i := IndexOfNullName(types[1..]);
      assert types[1..][..if i < 0 then 0 else i] == types[1..1 + if i < 0 then 0 else i];
      if i == -1 then -1 else i + 1
  }

  /** The `anyOf` member `val => val.type === 'null'` accepts: an object whose
      own `type` is the string `null`. */
  predicate IsNullMember(m: Json) {
    m.Obj? && Lookup(m.fields, "type") == Some(Str("null"))
  }

  /** `members.findIndex(val => val.type === 'null')`, scanning from `from`:
      reading `.type` of a `null` member throws before a later match is
      reached; other primitives and arrays have no `type`. */
  function FindNullMember(members: seq<Json>, from: nat): (r: Result<int>)
    ensures r.Ok? ==> r.value == -1 || (from <= r.value < |members| && IsNullMember(members[r.value]))
    ensures r.TypeError? ==> exists j :: from <= j < |members| && members[j].Null?
    decreases |members| - from
  {
    if from >= |members| then Ok(-1)
    else if members[from].Null? then TypeError
    else if IsNullMember(members[from]) then Ok(from)
    else FindNullMember(members, from + 1)
  }

  /** The first `{type: 'null'}` member is found when no `null` member comes
      before it. */
  lemma {:induction false} FindsFirstNullMember(members: seq<Json>, from: nat, i: nat)
    requires from <= i < |members| && IsNullMember(members[i])
    requires forall j :: from <= j < i ==> !IsNullMember(members[j]) && !members[j].Null?
    ensures FindNullMember(members, from) == Ok(i)
    decreases i - from
  {
    if from < i {
      FindsFirstNullMember(members, from + 1, i);
    }
  }

  /** A `null` member met before any `{type: 'null'}` throws. */
  lemma {:induction false} FindNullMemberThrows(members: seq<Json>, from: nat, j: nat)
    requires from <= j < |members| && members[j].Null?
    requires forall i :: from <= i < j ==> !IsNullMember(members[i])
    ensures FindNullMember(members, from) == TypeError
    decreases j - from
  {
    if from < j && !members[from].Null? {
      FindNullMemberThrows(members, from + 1, j);
    }
  }

  /** With neither kind of member, the search comes back empty. */
  lemma {:induction false} FindNullMemberNone(members: seq<Json>, from: nat)
    requires forall j :: from <= j < |members| ==> !IsNullMember(members[j]) && !members[j].Null?
    ensures FindNullMember(members, from) == Ok(-1)
    decreases |members| - from
  {
    if from < |members| {
      FindNullMemberNone(members, from + 1);
    }
  }

  /** Case A: a `type` array. The first `null` name is spliced out of the
      array (which stays where it was), `nullable` is set, and a single
      remaining name replaces the array. */
  function FoldTypeUnion(fs: seq<Field>, types: seq<Json>): (r: seq<Field>)
    ensures Str("null") !in types ==> r == fs
    ensures Str("null") in types ==> Lookup(r, "nullable") == Some(Bool(true))
    ensures forall k :: k != "type" && k != "nullable" ==> Lookup(r, k) == Lookup(fs, k)
  {
    var i := IndexOfNullName(types);
    if i == -1 then fs
    else
      var rest := RemoveAt(types, i);
      var marked := Set(Set(fs, "type", Arr(rest)), "nullable", Bool(true));
      if |rest| == 1 then Set(marked, "type", rest[0]) else marked
  }

  /** Case B: an `anyOf` array whose member at `i` is `{type: 'null'}`. The
      member is spliced out and `nullable` set; a single remaining member is
      merged into the node in place of `anyOf`, its keys winning. */
  function FoldAnyOf(fs: seq<Field>, members: seq<Json>, i: nat): (r: seq<Field>)
    requires i < |members|
    ensures |members| != 2 ==>
      && Lookup(r, "anyOf") == Some(Arr(RemoveAt(members, i)))
      && Lookup(r, "nullable") == Some(Bool(true))
    ensures |members| == 2 ==>
      forall k :: k in Keys(OwnEntries(RemoveAt(members, i)[0])) ==>
        Lookup(r, k) == LookupLast(OwnEntries(RemoveAt(members, i)[0]), k)
    ensures forall k :: k != "anyOf" && k != "nullable" && (|members| != 2 || k !in Keys(OwnEntries(RemoveAt(members, i)[0]))) ==>
      Lookup(r, k) == Lookup(fs, k)
  {
    var rest := RemoveAt(members, i);
    var marked := Set(Set(fs, "anyOf", Arr(rest)), "nullable", Bool(true));
    if |rest| == 1 then Assign(Delete(marked, "anyOf"), OwnEntries(rest[0])) else marked
  }

  /** `convertNullToNullable(value)`, returning the node it leaves behind.
      Reading `.type` of `null` throws; other primitives and arrays have
      neither `type` nor `anyOf` and are left alone. */
  function ConvertNullToNullable(value: Json): (r: Result<Json>)
    ensures value.Null? ==> r == TypeError
    ensures r.TypeError? && value.Obj? ==>
      exists members :: Lookup(value.fields, "anyOf") == Some(Arr(members)) && Null in members
    ensures !value.Null? && !value.Obj? ==> r == Ok(value)
    ensures value.Obj? && r.Ok? ==> r.value.Obj?
  {
    match value
    case Null => TypeError
    case Obj(fs) =>
      var types, anyOf := Lookup(fs, "type"), Lookup(fs, "anyOf");
      if types.Some? && types.value.Arr? then Ok(Obj(FoldTypeUnion(fs, types.value.items)))
      else if anyOf.Some? && anyOf.value.Arr? then
        var members := anyOf.value.items;
        match FindNullMember(members, 0)
        case TypeError => TypeError
        case Ok(i) => if i == -1 then Ok(value) else Ok(Obj(FoldAnyOf(fs, members, i)))
      else Ok(value)
    case _ => Ok(value)
  }

  /** Case A in full: only the first `null` name goes, `nullable` becomes
      true (appended when new), `type` keeps its place and becomes the single
      remaining name if one is left, and nothing else changes. */
  lemma TypeUnionFolding(fs: seq<Field>, types: seq<Json>, i: nat)
    requires Lookup(fs, "type") == Some(Arr(types))
    requires i < |types| && types[i] == Str("null") && Str("null") !in types[..i]
    ensures ConvertNullToNullable(Obj(fs)).Ok?
    ensures var r := ConvertNullToNullable(Obj(fs)).value.fields;
      && Lookup(r, "nullable") == Some(Bool(true))
      && Lookup(r, "type") == (if |types| == 2 then Some(RemoveAt(types, i)[0]) else Some(Arr(RemoveAt(types, i))))
      && (forall k :: k != "type" && k != "nullable" ==> Lookup(r, k) == Lookup(fs, k))
      && Keys(r) == if "nullable" in Keys(fs) then Keys(fs) else Keys(fs) + ["nullable"]
  {
    FirstNullName(types, i);
    assert ConvertNullToNullable(Obj(fs)) == Ok(Obj(FoldTypeUnion(fs, types)));
    FoldTypeUnionKeys(fs, types, i);
  }

  lemma FirstNullName(types: seq<Json>, i: nat)
    requires i < |types| && types[i] == Str("null") && Str("null") !in types[..i]
    ensures IndexOfNullName(types) == i
  {
  }

  lemma FoldTypeUnionKeys(fs: seq<Field>, types: seq<Json>, i: nat)
    requires i < |types| && IndexOfNullName(types) == i
    requires "type" in Keys(fs)
    ensures Keys(FoldTypeUnion(fs, types)) == if "nullable" in Keys(fs) then Keys(fs) else Keys(fs) + ["nullable"]
  {
    var rest := RemoveAt(types, i);
    var typed := Set(fs, "type", Arr(rest));
    var marked := Set(typed, "nullable", Bool(true));
    assert Keys(typed) == Keys(fs);
    if "nullable" !in Keys(fs) {
      KeysConcat(typed, [("nullable", Bool(true))]);
      assert Keys(marked) == Keys(fs) + ["nullable"];
    } else {
      assert Keys(marked) == Keys(fs);
    }
    assert "type" in Keys(marked);
    assert FoldTypeUnion(fs, types) == if |rest| == 1 then Set(marked, "type", rest[0]) else marked;
  }

  /** Case A takes precedence: once `type` is an array, `anyOf` is never
      looked at, and without a `null` name the node is left as it is. */
  lemma TypeUnionWithoutNull(fs: seq<Field>, types: seq<Json>)
    requires Lookup(fs, "type") == Some(Arr(types))
    requires Str("null") !in types
    ensures ConvertNullToNullable(Obj(fs)) == Ok(Obj(fs))
  {
  }

  /** Case B in full, for the first `{type: 'null'}` member with no `null`
      member before it: the member goes and `nullable` becomes true; when
      one member is left, `anyOf` is deleted and that member's own entries
      are assigned over the node. */
  lemma AnyOfFolding(fs: seq<Field>, members: seq<Json>, i: nat)
    requires !(Lookup(fs, "type").Some? && Lookup(fs, "type").value.Arr?)
    requires Lookup(fs, "anyOf") == Some(Arr(members))
    requires i < |members| && IsNullMember(members[i])
    requires forall j :: 0 <= j < i ==> !IsNullMember(members[j]) && !members[j].Null?
    ensures ConvertNullToNullable(Obj(fs)).Ok?
    ensures var r, rest := ConvertNullToNullable(Obj(fs)).value.fields, RemoveAt(members, i);
      && (|rest| != 1 ==>
           && Lookup(r, "anyOf") == Some(Arr(rest))
           && Lookup(r, "nullable") == Some(Bool(true))
           && forall k :: k != "anyOf" && k != "nullable" ==> Lookup(r, k) == Lookup(fs, k))
      && (|rest| == 1 ==>
           forall k :: Lookup(r, k) ==
             if k in Keys(OwnEntries(rest[0])) then LookupLast(OwnEntries(rest[0]), k)
             else if k == "anyOf" then None
             else if k == "nullable" then Some(Bool(true))
             else Lookup(fs, k))
  {
    FindsFirstNullMember(members, 0, i);
  }

  /** Case B throws when a `null` member is met before any `{type: 'null'}`. */
  lemma AnyOfNullMemberThrows(fs: seq<Field>, members: seq<Json>, j: nat)
    requires !(Lookup(fs, "type").Some? && Lookup(fs, "type").value.Arr?)
    requires Lookup(fs, "anyOf") == Some(Arr(members))
    requires j < |members| && members[j].Null?
    requires forall i :: 0 <= i < j ==> !IsNullMember(members[i])
    ensures ConvertNullToNullable(Obj(fs)) == TypeError
  {
    FindNullMemberThrows(members, 0, j);
  }

  /** Without a `type` array and without any `null` or `{type: 'null'}`
      member, the node is left as it is. */
  lemma AnyOfWithoutNull(fs: seq<Field>, members: seq<Json>)
    requires !(Lookup(fs, "type").Some? && Lookup(fs, "type").value.Arr?)
    requires Lookup(fs, "anyOf") == Some(Arr(members))
    requires forall j :: 0 <= j < |members| ==> !IsNullMember(members[j]) && !members[j].Null?
    ensures ConvertNullToNullable(Obj(fs)) == Ok(Obj(fs))
  {
    FindNullMemberNone(members, 0);
  }

  /** The options `modifySchema` reads. The configuration loader fills in
      every one of them, so its own destructuring defaults never apply. */
  datatype Options = Options(
    expandTypes: seq<string>,
    removeProps: seq<string>,
    detectGraphQL: bool,
    graphQLExpandedTypes: seq<string>)

  /** `isExpandable(key, types)`: the name is `P<...>` for some listed `P`. */
  predicate IsExpandable(key: string, types: seq<string>) {
    exists t :: t in types && Text.StartsWith(key, t + "<")
  }

  const DefinitionsPrefix: string := "#/definitions/"
  const ComponentsPrefix: string := "#/components/schemas/"

  /** The writes `expandableTypeMap[...] = definitions[type]` makes, one per
      expandable definition name, in table order. */
  function ExpansionWrites(names: seq<string>, defs: seq<Field>, expandTypes: seq<string>, enc: string -> string)
    : (r: seq<Field>)
    ensures |r| <= |names|
    ensures forall e :: e in r ==>
      exists n :: (&& n in names && IsExpandable(n, expandTypes)
                   && e.0 == DefinitionsPrefix + enc(n) && Lookup(defs, n) == Some(e.1))
    ensures forall n :: n in names && IsExpandable(n, expandTypes) && Lookup(defs, n).Some? ==>
      (DefinitionsPrefix + enc(n), Lookup(defs, n).value) in r
    decreases names
  {
    if names == [] then []
    else
      var rest := ExpansionWrites(names[1..], defs, expandTypes, enc);
      var n := names[0];
      if IsExpandable(n, expandTypes) && Lookup(defs, n).Some?
      then [(DefinitionsPrefix + enc(n), Lookup(defs, n).value)] + rest
      else rest
  }

  /** `expandableTypeMap`: from `'#/definitions/' + encodeURIComponent(name)`
      to the definition, for every expandable name of the table. */
  function ExpansionMap(defs: seq<Field>, expandTypes: seq<string>, enc: string -> string): (r: seq<Field>)
    ensures UniqueKeys(r)
  {
    var ws := ExpansionWrites(Keys(defs), defs, expandTypes, enc);
    AssignKeepsUniqueKeys([], ws);
    Assign([], ws)
  }

  /** What `recurse` needs besides the object it walks: the options and the
      expansion map. */
  datatype Walker = Walker(opts: Options, expansions: seq<Field>)

  /** What one entry of the loop does: nothing (`continue` without a
      write), one write to `result`, or a `return` of an inlined copy. */
  datatype Step = Skip | Write(entry: Field) | Return(copy: seq<Field>)

  /** What a loop over entries ends with: the writes it made, or the copy it
      returned early. */
  datatype Walk = Writes(writes: seq<Field>) | Inline(copy: seq<Field>)

  /** `$ref` strings naming an expandable definition, by their map entry. */
  predicate Expands(s: string, w: Walker) {
    Lookup(w.expansions, s).Some? && Truthy(Lookup(w.expansions, s).value)
  }

  /** `value.replace('#/definitions/', '#/components/schemas/')` */
  function RewriteRef(s: string): string {
    Text.ReplaceFirst(s, DefinitionsPrefix, ComponentsPrefix)
  }

  /** The loop body of `recurse` for one non-root entry. */
  function StepEntry(key: string, value: Json, w: Walker): (r: Step)
    ensures r.Skip? <==> key in w.opts.removeProps
    ensures r.Write? ==> r.entry.0 == key
    ensures r.Return? <==> key !in w.opts.removeProps && key == "$ref" && value.Str? && Expands(value.s, w)
    decreases value, 0
  {
    if key in w.opts.removeProps then Skip
    else match value
      case Arr(items) => Write((key, Arr(WalkItems(items, w))))
      case Obj(fs) => Write((key, Obj(Recurse(fs, w))))
      case Str(s) =>
        if key == "$ref" then
          if Expands(s, w) then Return(ShallowCopy(Lookup(w.expansions, s).value))
          else Write((key, Str(RewriteRef(s))))
        else Write((key, value))
      case _ => Write((key, value))
  }

  /** The loop of `recurse` over the remaining entries. */
  function WalkEntries(fs: seq<Field>, w: Walker): Walk
    decreases fs, 1
  {
    if fs == [] then Writes([])
    else
      assert fs[0].1 < fs[0];
      match StepEntry(fs[0].0, fs[0].1, w)
      case Return(c) => Inline(c)
      case Skip => WalkEntries(fs[1..], w)
      case Write(e) =>
        (match WalkEntries(fs[1..], w)
         case Inline(c) => Inline(c)
         case Writes(ws) => Writes([e] + ws))
  }

  /** The object a walk leaves: `result`, or the copy returned early. */
  function Finish(walk: Walk): (r: seq<Field>)
    ensures walk.Writes? ==> UniqueKeys(r)
    ensures walk.Inline? ==> r == walk.copy
  {
    match walk
    case Writes(ws) => AssignKeepsUniqueKeys([], ws); Assign([], ws)
    case Inline(c) => c
  }

  /** `recurse(object)` below the root. */
  function Recurse(fs: seq<Field>, w: Walker): seq<Field>
    decreases fs, 2
  {
    Finish(WalkEntries(fs, w))
  }

  /** An item of an array: objects are walked, anything else is kept. */
  function WalkItem(item: Json, w: Walker): Json
    decreases item, 1
  {
    match item
    case Obj(fs) => Obj(Recurse(fs, w))
    case _ => item
  }

  /** `value.map(...)`: same length, same order, item by item. */
  function WalkItems(items: seq<Json>, w: Walker): (r: seq<Json>)
    ensures |r| == |items|
    ensures forall i :: 0 <= i < |items| ==> r[i] == WalkItem(items[i], w)
    decreases items, 2
  {
    if items == [] then []
    else [WalkItem(items[0], w)] + WalkItems(items[1..], w)
  }

  /** The loop body at the root: removed names and expandable names are
      skipped, and a GraphQL wrapper name has its null union folded first. */
  function RootStep(key: string, value: Json, w: Walker): (r: Result<Step>)
    ensures key in w.opts.removeProps || IsExpandable(key, w.opts.expandTypes) ==> r == Ok(Skip)
    ensures !(w.opts.detectGraphQL && IsExpandable(key, w.opts.graphQLExpandedTypes)) && !IsExpandable(key, w.opts.expandTypes)
      ==> r == Ok(StepEntry(key, value, w))
    ensures r.Ok? && r.value.Write? ==> r.value.entry.0 == key
    ensures r.Ok? && r.value.Return? ==> key == "$ref"
    ensures r.Ok? && r.value.Skip? ==> key in w.opts.removeProps || IsExpandable(key, w.opts.expandTypes)
  {
    var opts := w.opts;
    if key in opts.removeProps then Ok(Skip)
    else if IsExpandable(key, opts.expandTypes) then Ok(Skip)
    else if opts.detectGraphQL && IsExpandable(key, opts.graphQLExpandedTypes) then
      match ConvertNullToNullable(value)
      case TypeError => TypeError
      case Ok(v) => Ok(StepEntry(key, v, w))
    else Ok(StepEntry(key, value, w))
  }

  /** The loop of `recurse(definitions, true)`. A thrown error ends it. */
  function RootWalk(fs: seq<Field>, w: Walker): Result<Walk>
    decreases fs
  {
    if fs == [] then Ok(Writes([]))
    else
      match RootStep(fs[0].0, fs[0].1, w)
      case TypeError => TypeError
      case Ok(Return(c)) => Ok(Inline(c))
      case Ok(Skip) => RootWalk(fs[1..], w)
      case Ok(Write(e)) =>
        (match RootWalk(fs[1..], w)
         case TypeError => TypeError
         case Ok(Inline(c)) => Ok(Inline(c))
         case Ok(Writes(ws)) => Ok(Writes([e] + ws)))
  }

  /** The walker `modifySchema` sets up for a table. */
  function TableWalker(fs: seq<Field>, opts: Options, enc: string -> string): Walker {
    Walker(opts, ExpansionMap(fs, opts.expandTypes, enc))
  }

  /** `modifySchema(definitions, options)`: `undefined` (`None`) for a null
      or absent table, otherwise the walked table. */
  function ModifySchema(defs: Json, opts: Options, enc: string -> string): (r: Result<Option<seq<Field>>>)
    ensures defs.Null? ==> r == Ok(None)
    ensures !defs.Null? && r.Ok? ==> r.value.Some?
  {
    if defs.Null? then Ok(None)
    else
      var fs := OwnEntries(defs);
      match RootWalk(fs, TableWalker(fs, opts, enc))
      case TypeError => TypeError
      case Ok(walk) => Ok(Some(Finish(walk)))
  }

  /** The keys of `ks` that `removeProps` does not list, in order. */
  function KeptKeys(ks: seq<string>, removeProps: seq<string>): (r: seq<string>)
    ensures forall k :: k in r <==> k in ks && k !in removeProps
  {
    if ks == [] then []
    else (if ks[0] in removeProps then [] else [ks[0]]) + KeptKeys(ks[1..], removeProps)
  }

  lemma DistinctTail<T>(s: seq<T>)
    requires s != []
    ensures Distinct(s) <==> s[0] !in s[1..] && Distinct(s[1..])
  {
    if s[0] !in s[1..] && Distinct(s[1..]) {
      forall i, j | 0 <= i < j < |s|
        ensures s[i] != s[j]
      {
        assert s[j] == s[1..][j - 1];
        if i > 0 {
          assert s[i] == s[1..][i - 1];
        }
      }
    }
  }

  lemma {:induction false} KeptKeysDistinct(ks: seq<string>, removeProps: seq<string>)
    requires Distinct(ks)
    ensures Distinct(KeptKeys(ks, removeProps))
  {
    if ks != [] {
      DistinctTail(ks);
      KeptKeysDistinct(ks[1..], removeProps);
      var rest := KeptKeys(ks[1..], removeProps);
      if ks[0] !in removeProps {
        DistinctTail([ks[0]] + rest);
        assert ([ks[0]] + rest)[1..] == rest;
      } else {
        assert KeptKeys(ks, removeProps) == rest;
      }
    }
  }

  /** The walk returns early exactly when some entry is a `$ref` to an
      expandable definition, and then with that entry's copy. */
  lemma {:induction false} WalkInline(fs: seq<Field>, w: Walker)
    ensures WalkEntries(fs, w).Inline? <==> exists e :: e in fs && StepEntry(e.0, e.1, w).Return?
    ensures WalkEntries(fs, w).Inline? ==>
      exists e :: e in fs && StepEntry(e.0, e.1, w) == Return(WalkEntries(fs, w).copy)
  {
    if fs != [] {
      WalkInline(fs[1..], w);
      assert forall e :: e in fs <==> e == fs[0] || e in fs[1..];
      match StepEntry(fs[0].0, fs[0].1, w)
      case Return(c) =>
        assert WalkEntries(fs, w) == Inline(c);
      case Skip =>
        assert WalkEntries(fs, w) == WalkEntries(fs[1..], w);
      case Write(e) =>
        assert WalkEntries(fs, w).Inline? <==> WalkEntries(fs[1..], w).Inline?;
    }
  }

  /** A walked node has distinct keys. It is the shallow copy of an
      expandable definition exactly when `$ref` is not removed and one of its
      `$ref` entries is a string naming such a definition; otherwise it is
      its writes assigned to a fresh object. */
  lemma RecurseResult(fs: seq<Field>, w: Walker)
    ensures UniqueKeys(Recurse(fs, w))
    ensures WalkEntries(fs, w).Inline? <==>
      "$ref" !in w.opts.removeProps && exists s :: ("$ref", Str(s)) in fs && Expands(s, w)
    ensures WalkEntries(fs, w).Inline? ==>
      exists s :: ("$ref", Str(s)) in fs && Expands(s, w) && Recurse(fs, w) == ShallowCopy(Lookup(w.expansions, s).value)
    ensures WalkEntries(fs, w).Writes? ==> Recurse(fs, w) == Assign([], WalkEntries(fs, w).writes)
  {
    var walk := WalkEntries(fs, w);
    InlineWhenRef(fs, w);
    if walk.Inline? {
      var s := InlinedCopy(fs, w);
      AssignKeepsUniqueKeys([], OwnEntries(Lookup(w.expansions, s).value));
    }
  }

  /** A walk returns early exactly when `$ref` is kept and one of the
      entries is a `$ref` string naming an expandable definition. */
  lemma InlineWhenRef(fs: seq<Field>, w: Walker)
    ensures WalkEntries(fs, w).Inline? <==>
      "$ref" !in w.opts.removeProps && exists s :: ("$ref", Str(s)) in fs && Expands(s, w)
  {
    WalkInline(fs, w);
    if "$ref" !in w.opts.removeProps && exists s :: ("$ref", Str(s)) in fs && Expands(s, w) {
      var s :| ("$ref", Str(s)) in fs && Expands(s, w);
      assert StepEntry("$ref", Str(s), w).Return?;
    }
  }

  /** The copy an early return leaves is that of the definition named by a
      `$ref` string of the walked object. */
  lemma InlinedCopy(fs: seq<Field>, w: Walker) returns (s: string)
    requires WalkEntries(fs, w).Inline?
    ensures ("$ref", Str(s)) in fs && Expands(s, w)
    ensures WalkEntries(fs, w).copy == ShallowCopy(Lookup(w.expansions, s).value)
  {
    WalkInline(fs, w);
    var e :| e in fs && StepEntry(e.0, e.1, w) == Return(WalkEntries(fs, w).copy);
    s := e.1.s;
    assert e == ("$ref", Str(s));
  }

  /** Without an early return, the walk writes each kept key once, in order. */
  lemma {:induction false} WalkKeys(fs: seq<Field>, w: Walker)
    requires WalkEntries(fs, w).Writes?
    ensures Keys(WalkEntries(fs, w).writes) == KeptKeys(Keys(fs), w.opts.removeProps)
  {
    if fs != [] {
      assert Keys(fs)[1..] == Keys(fs[1..]);
      WalkKeys(fs[1..], w);
      match StepEntry(fs[0].0, fs[0].1, w)
      case Skip =>
      case Write(e) =>
        var ws := WalkEntries(fs[1..], w).writes;
        assert Keys([e] + ws) == [e.0] + Keys(ws);
    }
  }

  /** Without an early return, a kept key is written with its entry's step. */
  lemma {:induction false} WalkWritesLookup(fs: seq<Field>, w: Walker, k: string)
    requires UniqueKeys(fs)
    requires WalkEntries(fs, w).Writes?
    ensures Lookup(WalkEntries(fs, w).writes, k) ==
      match Lookup(fs, k)
      case None => None
      case Some(v) => (match StepEntry(k, v, w) case Write(e) => Some(e.1) case _ => None)
  {
    if fs != [] {
      UniqueKeysTail(fs);
      WalkWritesLookup(fs[1..], w, k);
      match StepEntry(fs[0].0, fs[0].1, w)
      case Skip =>
      case Write(e) =>
        var ws := WalkEntries(fs[1..], w).writes;
        assert ([e] + ws)[1..] == ws;
    }
  }

  /** The object holds a `$ref` string (not listed for removal) naming an
      expandable definition. */
  predicate InlinesRef(fs: seq<Field>, w: Walker) {
    && "$ref" !in w.opts.removeProps
    && Lookup(fs, "$ref").Some? && Lookup(fs, "$ref").value.Str?
    && Expands(Lookup(fs, "$ref").value.s, w)
  }

  /** A `$ref` to an expandable definition replaces the whole node with a
      shallow copy of that definition, which is not walked; the node's other
      entries are discarded whatever their order. */
  lemma RefInlining(fs: seq<Field>, w: Walker)
    requires UniqueKeys(fs)
    ensures InlinesRef(fs, w) ==>
      Recurse(fs, w) == ShallowCopy(Lookup(w.expansions, Lookup(fs, "$ref").value.s).value)
    ensures !InlinesRef(fs, w) ==> WalkEntries(fs, w).Writes?
  {
    WalkInline(fs, w);
    if WalkEntries(fs, w).Inline? {
      var e :| e in fs && StepEntry(e.0, e.1, w) == Return(WalkEntries(fs, w).copy);
      LookupOfUniqueEntry(fs, e);
    }
  }

  /** A node with no expandable `$ref` keeps the keys not listed for
      removal, in their order. */
  lemma RecurseKeys(fs: seq<Field>, w: Walker)
    requires UniqueKeys(fs)
    requires !InlinesRef(fs, w)
    ensures Keys(Recurse(fs, w)) == KeptKeys(Keys(fs), w.opts.removeProps)
  {
    RefInlining(fs, w);
    var ws := WalkEntries(fs, w).writes;
    assert Recurse(fs, w) == Assign([], ws);
    WalkKeys(fs, w);
    KeptKeysDistinct(Keys(fs), w.opts.removeProps);
    assert UniqueKeys(ws);
    AssignFresh([], ws);
    assert [] + ws == ws;
  }

  /** A node with no expandable `$ref` keeps its shape: arrays mapped item by
      item, objects walked, a `$ref` string moved from `#/definitions/` to
      `#/components/schemas/`, every other value copied; keys listed for
      removal are gone. */
  lemma RecurseEntry(fs: seq<Field>, w: Walker, k: string)
    requires UniqueKeys(fs)
    requires !InlinesRef(fs, w)
    ensures var r := Lookup(Recurse(fs, w), k);
      && (k !in Keys(fs) || k in w.opts.removeProps ==> r == None)
      && (k in Keys(fs) && k !in w.opts.removeProps ==>
           var v := Lookup(fs, k).value;
           && (v.Arr? ==> r == Some(Arr(WalkItems(v.items, w))))
           && (v.Obj? ==> r == Some(Obj(Recurse(v.fields, w))))
           && (v.Str? && k == "$ref" ==> r == Some(Str(RewriteRef(v.s))))
           && (!v.Arr? && !v.Obj? && !(v.Str? && k == "$ref") ==> r == Some(v)))
  {
    RefInlining(fs, w);
    var ws := WalkEntries(fs, w).writes;
    WalkKeys(fs, w);
    KeptKeysDistinct(Keys(fs), w.opts.removeProps);
    LookupLastOfUniqueKeys(ws, k);
    WalkWritesLookup(fs, w, k);
  }

  /** Every definition the map can inline has no key listed for removal at
      any level a walk would visit: inlined copies are not walked. */
  predicate ExpansionsAvoid(w: Walker) {
    forall e :: e in w.expansions ==> AvoidsKeys(OwnEntries(e.1), w.opts.removeProps, w.opts.removeProps)
  }

  lemma ShallowCopyAvoids(d: Json, removeProps: seq<string>)
    requires AvoidsKeys(OwnEntries(d), removeProps, removeProps)
    ensures AvoidsKeys(ShallowCopy(d), removeProps, removeProps)
  {
    AvoidsKeysEntries(OwnEntries(d), removeProps, removeProps);
    AssignEntries([], OwnEntries(d));
    AvoidsKeysEntries(ShallowCopy(d), removeProps, removeProps);
  }

  lemma InlinedCopyAvoids(s: string, w: Walker)
    requires ExpansionsAvoid(w) && Expands(s, w)
    ensures AvoidsKeys(ShallowCopy(Lookup(w.expansions, s).value), w.opts.removeProps, w.opts.removeProps)
  {
    ShallowCopyAvoids(Lookup(w.expansions, s).value, w.opts.removeProps);
  }

  lemma StepAvoids(key: string, value: Json, w: Walker)
    requires ExpansionsAvoid(w)
    ensures StepEntry(key, value, w).Write? ==>
      var e := StepEntry(key, value, w).entry;
      e.0 !in w.opts.removeProps && ValueAvoidsKeys(e.1, w.opts.removeProps)
    ensures StepEntry(key, value, w).Return? ==>
      AvoidsKeys(StepEntry(key, value, w).copy, w.opts.removeProps, w.opts.removeProps)
    decreases value, 0
  {
    if key !in w.opts.removeProps {
      match value
      case Arr(items) => WalkItemsAvoid(items, w);
      case Obj(fs) => RecurseAvoids(fs, w);
      case Str(s) =>
        if key == "$ref" && Expands(s, w) {
          InlinedCopyAvoids(s, w);
        }
      case _ =>
    }
  }

  lemma WalkAvoids(fs: seq<Field>, w: Walker)
    requires ExpansionsAvoid(w)
    ensures WalkEntries(fs, w).Writes? ==> forall e :: e in WalkEntries(fs, w).writes ==>
      e.0 !in w.opts.removeProps && ValueAvoidsKeys(e.1, w.opts.removeProps)
    ensures WalkEntries(fs, w).Inline? ==> AvoidsKeys(WalkEntries(fs, w).copy, w.opts.removeProps, w.opts.removeProps)
    decreases fs, 1
  {
    if fs != [] {
      assert fs[0].1 < fs[0];
      StepAvoids(fs[0].0, fs[0].1, w);
      WalkAvoids(fs[1..], w);
    }
  }

  /** Provided the definitions that can be inlined carry none themselves, no
      key listed in `removeProps` survives anywhere the walk visits. */
  lemma RecurseAvoids(fs: seq<Field>, w: Walker)
    requires ExpansionsAvoid(w)
    ensures AvoidsKeys(Recurse(fs, w), w.opts.removeProps, w.opts.removeProps)
    decreases fs, 2
  {
    WalkAvoids(fs, w);
    match WalkEntries(fs, w)
    case Inline(_) =>
    case Writes(ws) =>
      AssignEntries([], ws);
      AvoidsKeysEntries(Assign([], ws), w.opts.removeProps, w.opts.removeProps);
  }

  lemma WalkItemAvoids(item: Json, w: Walker)
    requires ExpansionsAvoid(w)
    ensures ItemAvoidsKeys(WalkItem(item, w), w.opts.removeProps)
    decreases item, 1
  {
    if item.Obj? {
      RecurseAvoids(item.fields, w);
    }
  }

  lemma WalkItemsAvoid(items: seq<Json>, w: Walker)
    requires ExpansionsAvoid(w)
    ensures ItemsAvoidKeys(WalkItems(items, w), w.opts.removeProps)
    decreases items, 2
  {
    if items != [] {
      WalkItemAvoids(items[0], w);
      WalkItemsAvoid(items[1..], w);
      assert WalkItems(items, w)[1..] == WalkItems(items[1..], w);
    }
  }

  lemma PrefixCancel(p: string, a: string, b: string)
    requires p + a == p + b
    ensures a == b
  {
    assert a == (p + a)[|p|..];
  }

  /** `encodeURIComponent` maps distinct names to distinct strings. */
  ghost predicate Injective(enc: string -> string) {
    forall a, b :: enc(a) == enc(b) ==> a == b
  }

  /** The map holds exactly the references of the expandable names, each
      sending to that name's definition. */
  lemma ExpansionMapLookup(defs: seq<Field>, expandTypes: seq<string>, enc: string -> string, n: string)
    requires Injective(enc)
    requires IsExpandable(n, expandTypes)
    ensures Lookup(ExpansionMap(defs, expandTypes, enc), DefinitionsPrefix + enc(n)) == Lookup(defs, n)
  {
    var ws := ExpansionWrites(Keys(defs), defs, expandTypes, enc);
    var s := DefinitionsPrefix + enc(n);
    var r := Lookup(ExpansionMap(defs, expandTypes, enc), s);
    if Lookup(defs, n).Some? {
      assert (s, Lookup(defs, n).value) in ws;
      EntryKeyInKeys(ws, (s, Lookup(defs, n).value));
    }
    if s in Keys(ws) {
      var v := LookupLast(ws, s).value;
      var n' :| n' in Keys(defs) && IsExpandable(n', expandTypes) && s == DefinitionsPrefix + enc(n') && Lookup(defs, n') == Some(v);
      PrefixCancel(DefinitionsPrefix, enc(n), enc(n'));
    } else if Lookup(defs, n).Some? {
      assert false;
    }
  }

  /** Only references of the form `'#/definitions/' + encodeURIComponent(name)`
      for an expandable `name` of the table are in the map. */
  lemma ExpansionMapOnlyExpandable(defs: seq<Field>, expandTypes: seq<string>, enc: string -> string, s: string)
    requires Lookup(ExpansionMap(defs, expandTypes, enc), s).Some?
    ensures exists n :: n in Keys(defs) && IsExpandable(n, expandTypes) && s == DefinitionsPrefix + enc(n)
  {
    var ws := ExpansionWrites(Keys(defs), defs, expandTypes, enc);
    assert (s, LookupLast(ws, s).value) in ws;
  }

  /** No root entry is a `$ref` string. Every table of schema objects
      qualifies: a definition may be named `$ref`, a legal TypeScript type
      name, but its value is then an object, and only a string under `$ref`
      can end a walk early. */
  predicate NoRefString(fs: seq<Field>) {
    forall e :: e in fs && e.0 == "$ref" ==> !e.1.Str?
  }

  /** A table without a `$ref` string is never replaced wholesale at the
      root: the walk throws or makes writes. A
      walk throws only when some entry's folding throws, and does throw when
      one does. */
  lemma {:induction false} RootWalkOutcome(fs: seq<Field>, w: Walker)
    requires NoRefString(fs)
    ensures RootWalk(fs, w).Ok? ==> RootWalk(fs, w).value.Writes?
    ensures RootWalk(fs, w).TypeError? <==> exists e :: e in fs && RootStep(e.0, e.1, w).TypeError?
  {
    if fs != [] {
      assert Keys(fs) == [fs[0].0] + Keys(fs[1..]);
      RootWalkOutcome(fs[1..], w);
      assert forall e :: e in fs <==> e == fs[0] || e in fs[1..];
    }
  }

  /** Without an early return, each root entry is written with its own step. */
  lemma {:induction false} RootWritesLookup(fs: seq<Field>, w: Walker, ws: seq<Field>, k: string)
    requires UniqueKeys(fs)
    requires RootWalk(fs, w) == Ok(Writes(ws))
    ensures Lookup(ws, k) ==
      match Lookup(fs, k)
      case None => None
      case Some(v) => (match RootStep(k, v, w) case Ok(Write(e)) => Some(e.1) case _ => None)
    ensures UniqueKeys(ws)
  {
    if fs != [] {
      UniqueKeysTail(fs);
      assert Keys(fs) == [fs[0].0] + Keys(fs[1..]);
      match RootStep(fs[0].0, fs[0].1, w)
      case Ok(Skip) =>
        RootWritesLookup(fs[1..], w, ws, k);
      case Ok(Write(e)) =>
        var rest := RootWalk(fs[1..], w).value.writes;
        RootWritesLookup(fs[1..], w, rest, k);
        RootWritesLookup(fs[1..], w, rest, e.0);
        assert ws == [e] + rest;
        assert ws[1..] == rest;
        UniqueKeysTail(ws);
    }
  }

  /** The keys of a modified table: its names, less those listed in
      `removeProps` and those matching an `expandTypes` prefix (they exist
      only to be inlined). */
  lemma ModifiedTableKeys(fs: seq<Field>, opts: Options, enc: string -> string, r: seq<Field>)
    requires UniqueKeys(fs) && NoRefString(fs)
    requires ModifySchema(Obj(fs), opts, enc) == Ok(Some(r))
    ensures forall k :: k in Keys(r) <==> k in Keys(fs) && k !in opts.removeProps && !IsExpandable(k, opts.expandTypes)
  {
    var w := TableWalker(fs, opts, enc);
    TableWrites(fs, opts, enc, r);
    var ws := RootWalk(fs, w).value.writes;
    AssignKeys([], ws);
    forall k
      ensures k in Keys(r) <==> k in Keys(fs) && k !in opts.removeProps && !IsExpandable(k, opts.expandTypes)
    {
      WrittenRootKey(fs, w, ws, k);
    }
  }

  /** A root name is written exactly when it is neither removed nor
      expandable. */
  lemma WrittenRootKey(fs: seq<Field>, w: Walker, ws: seq<Field>, k: string)
    requires UniqueKeys(fs) && NoRefString(fs)
    requires RootWalk(fs, w) == Ok(Writes(ws))
    ensures k in Keys(ws) <==> k in Keys(fs) && k !in w.opts.removeProps && !IsExpandable(k, w.opts.expandTypes)
  {
    RootWritesLookup(fs, w, ws, k);
    if k in Keys(fs) {
      KeyHasEntry(fs, k);
      var e :| e in fs && e.0 == k;
      LookupOfUniqueEntry(fs, e);
      assert !RootStep(e.0, e.1, w).TypeError? by { RootWalkOutcome(fs, w); }
    }
  }

  /** A kept root entry is written as the same entry one level down would be,
      after its null union is folded when, and only when, GraphQL detection
      is on and its name is a GraphQL wrapper `P<...>`. */
  lemma ModifiedTableEntry(fs: seq<Field>, opts: Options, enc: string -> string, r: seq<Field>, k: string)
    requires UniqueKeys(fs) && NoRefString(fs)
    requires ModifySchema(Obj(fs), opts, enc) == Ok(Some(r))
    requires k in Keys(fs) && k !in opts.removeProps && !IsExpandable(k, opts.expandTypes)
    ensures var v, w := Lookup(fs, k).value, TableWalker(fs, opts, enc);
      && (!(opts.detectGraphQL && IsExpandable(k, opts.graphQLExpandedTypes)) ==>
           Lookup(r, k) == Lookup(Recurse([(k, v)], w), k))
      && (opts.detectGraphQL && IsExpandable(k, opts.graphQLExpandedTypes) ==>
           && ConvertNullToNullable(v).Ok?
           && Lookup(r, k) == Lookup(Recurse([(k, ConvertNullToNullable(v).value)], w), k))
  {
    var w := TableWalker(fs, opts, enc);
    var v := Lookup(fs, k).value;
    TableWrites(fs, opts, enc, r);
    var ws := RootWalk(fs, w).value.writes;
    RootWritesLookup(fs, w, ws, k);
    LookupLastOfUniqueKeys(ws, k);
    assert (k, v) in fs;
    assert !RootStep(k, v, w).TypeError? by { RootWalkOutcome(fs, w); }
    if opts.detectGraphQL && IsExpandable(k, opts.graphQLExpandedTypes) {
      SingleEntryWalk(k, ConvertNullToNullable(v).value, w);
    } else {
      SingleEntryWalk(k, v, w);
    }
  }

  /** A table with no `$ref` string at the root is walked without an early
      return: the result is its writes assigned to a fresh object. */
  lemma TableWrites(fs: seq<Field>, opts: Options, enc: string -> string, r: seq<Field>)
    requires NoRefString(fs)
    requires ModifySchema(Obj(fs), opts, enc) == Ok(Some(r))
    ensures var walk := RootWalk(fs, TableWalker(fs, opts, enc));
      walk.Ok? && walk.value.Writes? && r == Assign([], walk.value.writes)
  {
    var w := TableWalker(fs, opts, enc);
    ModifySchemaOfObject(fs, opts, enc);
    WalkWritesOnly(fs, w);
  }

  /** `modifySchema` on an object walks its entries with the table walker. */
  lemma ModifySchemaOfObject(fs: seq<Field>, opts: Options, enc: string -> string)
    ensures ModifySchema(Obj(fs), opts, enc) ==
      match RootWalk(fs, TableWalker(fs, opts, enc))
      case TypeError => TypeError
      case Ok(walk) => Ok(Some(Finish(walk)))
  {
    assert OwnEntries(Obj(fs)) == fs;
  }

  /** Without a root `$ref` string, a walk that succeeds only writes. */
  lemma WalkWritesOnly(fs: seq<Field>, w: Walker)
    requires NoRefString(fs)
    ensures RootWalk(fs, w).Ok? ==> RootWalk(fs, w).value.Writes?
  {
    RootWalkOutcome(fs, w);
  }

  lemma SingleEntryWalk(k: string, v: Json, w: Walker)
    requires !(k == "$ref" && v.Str?) && k !in w.opts.removeProps
    ensures StepEntry(k, v, w).Write?
    ensures Lookup(Recurse([(k, v)], w), k) == Some(StepEntry(k, v, w).entry.1)
  {
    var e := StepEntry(k, v, w).entry;
    assert [(k, v)][1..] == [];
    assert WalkEntries([(k, v)], w) == Writes([e]);
    assert Assign([], [e]) == Assign(Set([], k, e.1), []);
  }

  /** `Object.assign(Object.create(null), ...definitions)`: the per-type
      results assigned in order, `undefined` ones skipped. */
  function MergeDefinitions(results: seq<Option<seq<Field>>>): (r: seq<Field>)
    ensures UniqueKeys(r)
    decreases |results|
  {
    if results == [] then []
    else
      var n := |results| - 1;
      var acc := MergeDefinitions(results[..n]);
      match results[n]
      case None => acc
      case Some(fs) => AssignKeepsUniqueKeys(acc, fs); Assign(acc, fs)
  }

  /** A merged name exists exactly when some per-type result defines it;
      `undefined` results contribute nothing. */
  lemma {:induction false} MergedKeys(results: seq<Option<seq<Field>>>, k: string)
    ensures k in Keys(MergeDefinitions(results)) <==>
      exists i :: 0 <= i < |results| && results[i].Some? && k in Keys(results[i].value)
    decreases |results|
  {
    if results != [] {
      var n := |results| - 1;
      var acc := MergeDefinitions(results[..n]);
      MergedKeys(results[..n], k);
      assert forall i :: 0 <= i < n ==> results[..n][i] == results[i];
      assert (exists i :: 0 <= i < |results| && results[i].Some? && k in Keys(results[i].value))
        <==> k in Keys(acc) || (results[n].Some? && k in Keys(results[n].value));
      MergeStepKeys(results, k);
    }
  }

  /** The last result adds its names to those merged before it. */
  lemma MergeStepKeys(results: seq<Option<seq<Field>>>, k: string)
    requires results != []
    ensures var n := |results| - 1;
      k in Keys(MergeDefinitions(results)) <==>
        k in Keys(MergeDefinitions(results[..n])) || (results[n].Some? && k in Keys(results[n].value))
  {
    var n := |results| - 1;
    var acc := MergeDefinitions(results[..n]);
    match results[n]
    case None =>
      assert MergeDefinitions(results) == acc;
    case Some(fs) =>
      assert MergeDefinitions(results) == Assign(acc, fs);
      AssignKeys(acc, fs);
  }

  /** Last write wins: a name takes its value from the last result that
      defines it, whatever earlier results said. */
  lemma {:induction false} MergeLastWins(results: seq<Option<seq<Field>>>, i: nat, k: string)
    requires i < |results| && results[i].Some? && k in Keys(results[i].value)
    requires forall j :: i < j < |results| && results[j].Some? ==> k !in Keys(results[j].value)
    ensures Lookup(MergeDefinitions(results), k) == LookupLast(results[i].value, k)
    decreases |results|
  {
    var n := |results| - 1;
    var acc := MergeDefinitions(results[..n]);
    if i < n {
      assert results[..n][i] == results[i];
      MergeLastWins(results[..n], i, k);
      match results[n]
      case None =>
        assert MergeDefinitions(results) == acc;
      case Some(fs) =>
        assert k !in Keys(fs);
        assert MergeDefinitions(results) == Assign(acc, fs);
    } else {
      assert MergeDefinitions(results) == Assign(acc, results[n].value);
    }
  }

  /** The components document the converter emits for one source file:
      `modifySchema` applied to the definitions of each requested type, in
      order, and the results merged. The first error aborts the file. */
  function ModifyAll(tables: seq<Json>, opts: Options, enc: string -> string): (r: Result<seq<Option<seq<Field>>>>)
    ensures r.Ok? ==> |r.value| == |tables|
    ensures r.Ok? ==> forall i :: 0 <= i < |tables| ==> ModifySchema(tables[i], opts, enc) == Ok(r.value[i])
    ensures r.TypeError? <==> exists i :: 0 <= i < |tables| && ModifySchema(tables[i], opts, enc).TypeError?
    decreases |tables|
  {
    if tables == [] then Ok([])
    else
      var n := |tables| - 1;
      match ModifyAll(tables[..n], opts, enc)
      case TypeError =>
        TypeError
      case Ok(prefix) =>
        match ModifySchema(tables[n], opts, enc)
        case TypeError => TypeError
        case Ok(last) => Ok(prefix + [last])
  }

  function ConvertTypeScript(tables: seq<Json>, opts: Options, enc: string -> string): (r: Result<Json>)
    ensures r.TypeError? <==> exists i :: 0 <= i < |tables| && ModifySchema(tables[i], opts, enc).TypeError?
    ensures r.Ok? ==> exists results ::
      && |results| == |tables|
      && (forall i :: 0 <= i < |tables| ==> ModifySchema(tables[i], opts, enc) == Ok(results[i]))
      && r.value == Obj([("components", Obj([("schemas", Obj(MergeDefinitions(results)))]))])
  {
    match ModifyAll(tables, opts, enc)
    case TypeError => TypeError
    case Ok(results) => Ok(Obj([("components", Obj([("schemas", Obj(MergeDefinitions(results)))]))]))
  }

  /** A reference into the definitions is moved to the component schemas,
      its name unchanged. */
  lemma RewriteDefinitionRef(name: string)
    ensures RewriteRef(DefinitionsPrefix + name) == ComponentsPrefix + name
  {
    Text.ReplacePrefix(DefinitionsPrefix, name, ComponentsPrefix);
  }

  /** `{anyOf: [{type: t}, {type: 'null'}]}` becomes
      `{nullable: true, type: t}`: one member is left, so it is merged in. */
  lemma AnyOfCollapseExample(t: string)
    requires t != "null"
    ensures
      var members := [Obj([("type", Str(t))]), Obj([("type", Str("null"))])];
      ConvertNullToNullable(Obj([("anyOf", Arr(members))]))
      == Ok(Obj([("nullable", Bool(true)), ("type", Str(t))]))
  {
    var a, z := Obj([("type", Str(t))]), Obj([("type", Str("null"))]);
    var marked := [("nullable", Bool(true))];
    assert !IsNullMember(a);
    NullMemberSecond(a);
    LoneAnyOf([a, z], 1);
    LoneAnyOfCollapse(a, z);
    var own := OwnEntries(a);
    assert own == [("type", Str(t))];
    AssignSecond(("nullable", Bool(true)), "type", Str(t));
    calc {
      ConvertNullToNullable(Obj([("anyOf", Arr([a, z]))]));
      Ok(Obj(FoldAnyOf([("anyOf", Arr([a, z]))], [a, z], 1)));
      Ok(Obj(Assign(marked, own)));
      Ok(Obj([("nullable", Bool(true)), ("type", Str(t))]));
    }
  }

  /** A `{type: 'null'}` second member is found when the first is neither
      kind of null member. */
  lemma NullMemberSecond(a: Json)
    requires !IsNullMember(a) && !a.Null?
    ensures FindNullMember([a, Obj([("type", Str("null"))])], 0) == Ok(1)
  {
    FindsFirstNullMember([a, Obj([("type", Str("null"))])], 0, 1);
  }

  /** Assigning a second, differently keyed entry onto one entry appends it. */
  lemma AssignSecond(e: Field, k: string, v: Json)
    requires k != e.0
    ensures Assign([e], [(k, v)]) == [e, (k, v)]
  {
    assert [(k, v)][1..] == [];
    assert Keys([e]) == [e.0];
    assert Assign([e], [(k, v)]) == Assign(Set([e], k, v), []);
    assert [e] + [(k, v)] == [e, (k, v)];
  }

  /** `{anyOf: [{type: t}, {type: u}, {type: 'null'}]}` becomes
      `{anyOf: [{type: t}, {type: u}], nullable: true}`: two members are
      left, so `anyOf` stays. */
  lemma AnyOfKeepExample(t: string, u: string)
    requires t != "null" && u != "null"
    ensures
      var a, b := Obj([("type", Str(t))]), Obj([("type", Str(u))]);
      ConvertNullToNullable(Obj([("anyOf", Arr([a, b, Obj([("type", Str("null"))])]))]))
      == Ok(Obj([("anyOf", Arr([a, b])), ("nullable", Bool(true))]))
  {
    var a, b := Obj([("type", Str(t))]), Obj([("type", Str(u))]);
    var members := [a, b, Obj([("type", Str("null"))])];
    assert !IsNullMember(a) && !IsNullMember(b);
    FindsFirstNullMember(members, 0, 2);
    LoneAnyOf(members, 2);
    assert RemoveAt(members, 2) == [a, b];
    LoneAnyOfFolding(members, 2);
  }

  /** A node whose only key is `anyOf` is folded at the member the search
      finds. */
  lemma LoneAnyOf(members: seq<Json>, i: nat)
    requires i < |members| && FindNullMember(members, 0) == Ok(i)
    ensures ConvertNullToNullable(Obj([("anyOf", Arr(members))]))
      == Ok(Obj(FoldAnyOf([("anyOf", Arr(members))], members, i)))
  {
    var fs := [("anyOf", Arr(members))];
    assert Lookup(fs, "type") == None;
    assert Lookup(fs, "anyOf") == Some(Arr(members));
    AnyOfFolded(fs, members, i);
  }

  /** Without a `type` array, a node is folded at the member the search finds. */
  lemma AnyOfFolded(fs: seq<Field>, members: seq<Json>, i: nat)
    requires Lookup(fs, "type") == None
    requires Lookup(fs, "anyOf") == Some(Arr(members))
    requires i < |members| && FindNullMember(members, 0) == Ok(i)
    ensures ConvertNullToNullable(Obj(fs)) == Ok(Obj(FoldAnyOf(fs, members, i)))
  {
    assert Lookup(fs, "anyOf").value.items == members;
    assert (i as int) != -1;
  }

  /** An object whose only key is `anyOf`, folded at member `i` with two or
      more members left, keeps `anyOf` first and gains `nullable` after it. */
  lemma LoneAnyOfFolding(members: seq<Json>, i: nat)
    requires i < |members| && |members| > 2
    ensures FoldAnyOf([("anyOf", Arr(members))], members, i)
      == [("anyOf", Arr(RemoveAt(members, i))), ("nullable", Bool(true))]
  {
    var fs := [("anyOf", Arr(members))];
    var rest := RemoveAt(members, i);
    assert Set(fs, "anyOf", Arr(rest)) == [("anyOf", Arr(rest))];
  }

  /** Folding `{anyOf: [a, null-member]}` leaves `nullable` with `a`'s own
      entries assigned over it. */
  lemma LoneAnyOfCollapse(a: Json, z: Json)
    ensures FoldAnyOf([("anyOf", Arr([a, z]))], [a, z], 1)
      == Assign([("nullable", Bool(true))], OwnEntries(a))
  {
    var fs := [("anyOf", Arr([a, z]))];
    var rest := RemoveAt([a, z], 1);
    assert rest == [a];
    var marked := Set(Set(fs, "anyOf", Arr(rest)), "nullable", Bool(true));
    assert marked == [("anyOf", Arr(rest)), ("nullable", Bool(true))];
    assert Delete(marked, "anyOf") == [("nullable", Bool(true))];
  }

  /** A `$ref` to an expandable definition `n` puts a shallow copy of that
      definition, unwalked, in place of the referring node, and `n` itself
      is not emitted. */
  lemma InliningExample(n: string, m: string, body: seq<Field>, opts: Options, enc: string -> string)
    requires Injective(enc)
    requires n != m && n != "$ref" && m != "$ref"
    requires IsExpandable(n, opts.expandTypes) && !IsExpandable(m, opts.expandTypes)
    requires m !in opts.removeProps && "$ref" !in opts.removeProps
    requires !(opts.detectGraphQL && IsExpandable(m, opts.graphQLExpandedTypes))
    requires UniqueKeys(body)
    ensures
      var table := [(n, Obj(body)), (m, Obj([("$ref", Str(DefinitionsPrefix + enc(n)))]))];
      ModifySchema(Obj(table), opts, enc) == Ok(Some([(m, Obj(body))]))
  {
    var ref := DefinitionsPrefix + enc(n);
    var table := [(n, Obj(body)), (m, Obj([("$ref", Str(ref))]))];
    var w := TableWalker(table, opts, enc);
    ExpansionMapLookup(table, opts.expandTypes, enc, n);
    assert Lookup(table, n) == Some(Obj(body));
    ReferringDefinition(m, ref, body, w);
    assert RootStep(n, Obj(body), w) == Ok(Skip);
    TwoEntryRootWalk(table, w, (m, Obj(body)));
    WalkedTable(table, opts, enc, [(m, Obj(body))]);
  }

  /** A root walk that ends with writes of distinct keys is the walked table. */
  lemma WalkedTable(fs: seq<Field>, opts: Options, enc: string -> string, ws: seq<Field>)
    requires RootWalk(fs, TableWalker(fs, opts, enc)) == Ok(Writes(ws))
    requires UniqueKeys(ws)
    ensures ModifySchema(Obj(fs), opts, enc) == Ok(Some(ws))
  {
    var w := TableWalker(fs, opts, enc);
    assert OwnEntries(Obj(fs)) == fs;
    assert Finish(Writes(ws)) == Assign([], ws);
    AssignFresh([], ws);
    assert [] + ws == ws;
  }

  /** At the root, a definition that is only a reference to an expandable
      definition is written as that definition's body. */
  lemma ReferringDefinition(m: string, ref: string, body: seq<Field>, w: Walker)
    requires m != "$ref" && m !in w.opts.removeProps && !IsExpandable(m, w.opts.expandTypes)
    requires !(w.opts.detectGraphQL && IsExpandable(m, w.opts.graphQLExpandedTypes))
    requires "$ref" !in w.opts.removeProps && UniqueKeys(body)
    requires Lookup(w.expansions, ref) == Some(Obj(body))
    ensures RootStep(m, Obj([("$ref", Str(ref))]), w) == Ok(Write((m, Obj(body))))
  {
    InlinedReference(ref, body, w);
  }

  /** A node holding nothing but a `$ref` to an expandable definition walks
      to that definition's entries. */
  lemma InlinedReference(ref: string, body: seq<Field>, w: Walker)
    requires "$ref" !in w.opts.removeProps && UniqueKeys(body)
    requires Lookup(w.expansions, ref) == Some(Obj(body))
    ensures Recurse([("$ref", Str(ref))], w) == body
  {
    var user := [("$ref", Str(ref))];
    assert Lookup(user, "$ref") == Some(Str(ref));
    assert InlinesRef(user, w);
    RefInlining(user, w);
    ShallowCopyOfObject(body);
  }

  /** A two-entry table whose first entry is skipped and whose second is
      written walks to that one write. */
  lemma TwoEntryRootWalk(table: seq<Field>, w: Walker, e: Field)
    requires |table| == 2
    requires RootStep(table[0].0, table[0].1, w) == Ok(Skip)
    requires RootStep(table[1].0, table[1].1, w) == Ok(Write(e))
    ensures RootWalk(table, w) == Ok(Writes([e]))
  {
    var tail := table[1..];
    assert tail[0] == table[1] && tail[1..] == [];
    assert RootWalk(tail[1..], w) == Ok(Writes([]));
    assert RootStep(tail[0].0, tail[0].1, w) == Ok(Write(e));
    assert [e] + [] == [e];
    assert RootWalk(tail, w) == Ok(Writes([e]));
  }

  /** Inlined bodies are not walked again, so a self-referencing expandable
      definition terminates but leaves its own `#/definitions/` reference,
      which no longer names anything, in the output. */
  lemma SelfReferenceExample(n: string, m: string, opts: Options, enc: string -> string)
    requires Injective(enc)
    requires n != m && n != "$ref" && m != "$ref"
    requires IsExpandable(n, opts.expandTypes) && !IsExpandable(m, opts.expandTypes)
    requires m !in opts.removeProps && "$ref" !in opts.removeProps
    requires !(opts.detectGraphQL && IsExpandable(m, opts.graphQLExpandedTypes))
    ensures
      var self := Obj([("$ref", Str(DefinitionsPrefix + enc(n)))]);
      ModifySchema(Obj([(n, self), (m, self)]), opts, enc) == Ok(Some([(m, self)]))
  {
    var body := [("$ref", Str(DefinitionsPrefix + enc(n)))];
    assert Keys(body) == ["$ref"];
    InliningExample(n, m, body, opts, enc);
  }
}
