# project-to-openapi: the schema rewriting core, in Dafny

project-to-openapi turns hand-written JSON Schema files and schemas generated from
TypeScript declarations into OpenAPI 3 `components.schemas` fragments. It merges them
with the JSDoc-scanned paths, prunes empty containers and writes one document. This
project models the pure tree rewriting at its centre and proves what it does.

- `JsonValue` (json.dfy) is the value model. A parsed document is a `Json`: `null`,
  booleans, numbers, strings, arrays, and objects as ordered association lists.
  - `Set`, `Delete` and `Assign` are JavaScript's `o[k] = v`, `delete o[k]` and
    `Object.assign`. A write replaces an existing key in place or appends it.
  - `OwnEntries` is `Object.entries`, with a string indexed by character (see "## Left out").
- `Constants` (constants.dfy) holds `lib/Constants.ts`.
- `Text` (text.dfy) holds the string built-ins used: `startsWith`, `indexOf`, a
  string-pattern `replace`, the `/.json$/` rename, and decimal index keys.
- `JsonSchemaToOpenApi` (json_schema.dfy) covers two things:
  - `cleanJsonSchema`, which strips unsupported keywords at every level, turns an
    array-valued `type` into `oneOf`, and cleans and filters arrays;
  - the packaging of one file under its title, modelled as a function from the parsed
    document to the output document and file name.
- `TypeScriptToOpenApi` (typescript.dfy) covers:
  - `convertNullToNullable`, both the `type`-array case and the `anyOf` case;
  - `modifySchema`, which drops, expands and inlines definitions and rewrites
    `#/definitions/` references;
  - the merge of the per-type tables into `components.schemas`.
- `ProjectToOpenApi` (project.dfy) is `removeEmptyJson`, the final pruner.

JavaScript errors that the code can reach are a `Result.TypeError`. Examples are
reading `.type` of a `null`, `Object.entries(null)`, and `String()` of a
null-prototype object.

`encodeURIComponent` and `String(number)` are parameters, `enc` and `numberText`.
Where a property needs `encodeURIComponent` to be injective, it says so through
`Injective(enc)`.

Some behaviours of the code differ from what one might expect from the documentation.
The model follows the code:

- **Untitled schema files.** A JSON Schema file without a `title` is filed under the key
  `"undefined"`, because the key is `String(title)`. Its file name is kept, with `.json`
  turned into `.yaml`. The key is not taken from the file name.
- **Property names are stripped too.** Keyword stripping looks at every key of every
  object below the root. A property *named* `id`, `const`, `if`, `then`, `else`, … inside
  `properties` is therefore removed with the keywords. `WidgetLosesIdProperty` shows it.
- **`null` under a key survives pruning.** The pruner drops empty arrays, `null` array
  items and objects with no entries. A `null` directly under a key is copied. So
  `{a: {}, b: [], c: null, d: 1}` becomes `{c: null, d: 1}` (`MixedEntriesExample`).
- **One pruning pass is not idempotent.** Emptiness is judged on the entries before
  pruning, so `{a: {b: {}}}` becomes `{a: {}}` (`PruneNotIdempotent`).
- **A self-referencing expandable type keeps a dangling reference.** An inlined definition
  is copied without being walked. Its `#/definitions/` reference stays in the output
  (`SelfReferenceExample`).
- **Object items of a `type` array are not cleaned.** An array-valued `type` becomes `oneOf`
  by wrapping each item as `{type: item}` without cleaning it. An object item therefore keeps
  its unsupported keywords at depth. This is why the stripping lemma requires every `type`
  array to list names.
- **`removeProps` does not reach `oneOf`.** When `removeProps` lists `oneOf`, an
  array-valued `type` still produces `oneOf`, because the removal test looks at the
  input key `type`. This is why the idempotence and stripping lemmas require `oneOf`
  not to be listed.

## Model

| member | source | states |
|---|---|---|
| Constants.ProjectGlobsSpelledOut | lib/Constants.ts:2-8 | The generated-file globs are `.swagger-wagon/typescript/*.yaml` then `.swagger-wagon/json-schema/*.yaml`, TypeScript first. |
| Constants.UnsupportedKeywordsDistinct | lib/Constants.ts:9-23 | There are thirteen unsupported keywords, no two alike. |
| Constants.UnsupportedKeywordsFacts | lib/Constants.ts:9-23 | `title`, `type`, `oneOf`, `anyOf`, `nullable` and `$ref` are not unsupported keywords, so naming and `type` flattening are never disabled by the keyword list. |
| Text.ReplaceFirst | lib/TypeScriptToOpenApi.ts:117 | A string-pattern `replace` changes exactly the first occurrence, and leaves a string without one unchanged. |
| Text.ReplaceJsonExtension | lib/JsonSchemaToOpenApi.ts:79 | `/.json$/` matches any name `p + c + "json"` whose `c` is not a line terminator, and the name becomes `p + ".yaml"`. A name that cannot be split that way is returned unchanged. |
| Text.JsonFileRenamed | lib/JsonSchemaToOpenApi.ts:79 | `<base>.json` is renamed `<base>.yaml`. |
| JsonValue.Set | lib/JsonSchemaToOpenApi.ts:55 | `o[k] = v` keeps the keys when `k` is present and otherwise appends `(k, v)`. Afterwards `k` holds `v` and every other key reads as before. |
| JsonValue.Delete | lib/JsonSchemaToOpenApi.ts:77 | `delete o[k]` removes `k`, keeps every other key's value and the order of the rest, and changes nothing when `k` is absent. |
| JsonValue.Assign | lib/TypeScriptToOpenApi.ts:56 | After `Object.assign`, a key of the source reads as the source's last entry for it, and every other key as in the target. |
| JsonValue.AssignKeyOrder | lib/TypeScriptToOpenApi.ts:56 | `Object.assign` lists its keys in order of first appearance among the target's keys followed by the source's. |
| JsonValue.IndexEntries | lib/TypeScriptToOpenApi.ts:115 | An array's or a string's own entries have distinct index keys, so copying them keeps them all, in order. |
| JsonSchemaToOpenApi.CleanItems | lib/JsonSchemaToOpenApi.ts:27-41 | The filtered array is no longer than the input and holds no `null` and no empty object. |
| JsonSchemaToOpenApi.CleanSchema | lib/JsonSchemaToOpenApi.ts:10-59 | The cleaned object has distinct keys, whatever the input. |
| JsonSchemaToOpenApi.CleanedKeys | lib/JsonSchemaToOpenApi.ts:12-17 | Every output key is an input key not listed for removal, or the `oneOf` produced from an array-valued `type`. |
| JsonSchemaToOpenApi.CleanedKeysInOrder | lib/JsonSchemaToOpenApi.ts:10-59 | The output keys keep the input order: they are a subsequence of the input keys, with an array-valued `type` renamed `oneOf` in its place. Without such a `type`, they are a subsequence of the input keys themselves. |
| JsonSchemaToOpenApi.CleanedEntry | lib/JsonSchemaToOpenApi.ts:14-56 | Key by key, the schema's own `oneOf` included when no array-valued `type` overwrites it: a listed key is gone and an array-valued `type` is gone. A scalar is copied. An object is cleaned without `removeProps` and kept even when empty. Any other array is cleaned item by item and dropped when nothing remains. |
| JsonSchemaToOpenApi.CleanItemsFilter | lib/JsonSchemaToOpenApi.ts:27-41 | The cleaned array is an order-preserving subsequence of the mapped items. Every mapped item that is not `null` and not an empty object occurs in the result. Every non-object, non-null item occurs in the result unchanged. |
| JsonSchemaToOpenApi.CleanItemsConcat | lib/JsonSchemaToOpenApi.ts:27-41 | Cleaning a concatenation gives the concatenation of the cleaned parts. |
| JsonSchemaToOpenApi.CleanItemsPerItem | lib/JsonSchemaToOpenApi.ts:27-41 | Each item, wherever it stands, appears once in its place as its mapped form when that is neither `null` nor an empty object, and not at all otherwise. |
| JsonSchemaToOpenApi.TypeArrayBecomesOneOf | lib/JsonSchemaToOpenApi.ts:19-25 | When the schema has no `oneOf` of its own and `type` is not listed for removal, a `type` array of any length becomes `oneOf`, one `{type: t}` per element, in order. No `type` key is emitted. |
| JsonSchemaToOpenApi.SchemaIdempotent | lib/JsonSchemaToOpenApi.ts:10-59 | Cleaning twice equals cleaning once, when every `type` array is a non-empty list of names and `oneOf` is not listed for removal. |
| JsonSchemaToOpenApi.SchemaStripped | lib/JsonSchemaToOpenApi.ts:12-17 | No top-level key is an unsupported keyword or in `removeProps`. No deeper object key is an unsupported keyword, when every `type` array lists names and `oneOf` is not listed for removal. |
| JsonSchemaToOpenApi.StableSchemaIsFixed | lib/JsonSchemaToOpenApi.ts:10-59 | A schema whose every entry cleans to itself is its own cleaning. |
| JsonSchemaToOpenApi.CleanDocument | lib/JsonSchemaToOpenApi.ts:73 | A `null` document throws. An object is cleaned. Booleans and numbers clean to `{}`. |
| JsonSchemaToOpenApi.JsString | lib/JsonSchemaToOpenApi.ts:75 | `String(v)`: a string is itself. A null-prototype object throws, any other object prints. Scalars never throw. |
| JsonSchemaToOpenApi.ComponentKey | lib/JsonSchemaToOpenApi.ts:74-75 | No title gives the key `"undefined"`. A string title is the key. An object title throws. |
| JsonSchemaToOpenApi.TransformSchemaFile | lib/JsonSchemaToOpenApi.ts:73-79 | A `null` document throws. Otherwise the output is `{components: {schemas: {key: body}}}`, where `body` is the cleaned schema minus `title` and agrees with it on every other key. |
| JsonSchemaToOpenApi.TitledSchemaFile | lib/JsonSchemaToOpenApi.ts:74-79 | A non-empty string title names the component and the file `<title>.components.yaml`. The title is removed from the body. |
| JsonSchemaToOpenApi.UntitledSchemaFile | lib/JsonSchemaToOpenApi.ts:74-79 | Without a title, or with `title` removed, the key is `"undefined"` and the file name has `.json` turned into `.yaml`. |
| JsonSchemaToOpenApi.TitleNamesFile | lib/JsonSchemaToOpenApi.ts:74-79 | For any title that `String` can print, the printed title is the key. A truthy title names the file `<key>.components.yaml`; a falsy one leaves the `.json` rename. |
| JsonSchemaToOpenApi.ScalarTitleFile | lib/JsonSchemaToOpenApi.ts:74-79 | A string, number, boolean or `null` title is the key as `String` prints it. The file is named after it exactly when it is truthy: `""`, `0`, `false` and `null` keep the `.json` rename. |
| JsonSchemaToOpenApi.ArrayTitleFile | lib/JsonSchemaToOpenApi.ts:74-79 | An array title that cleans to nothing is dropped, and the file is untitled. Otherwise it is truthy: its joined text is key and file name, or the conversion throws. |
| JsonSchemaToOpenApi.ObjectTitleThrows | lib/JsonSchemaToOpenApi.ts:74-75 | An object-valued title throws when used as a key. |
| JsonSchemaToOpenApi.TypeUnionExample | lib/JsonSchemaToOpenApi.ts:19-25 | `{type: ['string','null']}` becomes `{oneOf: [{type:'string'},{type:'null'}]}`. |
| JsonSchemaToOpenApi.SingleTypeExample | lib/JsonSchemaToOpenApi.ts:19-25 | A one-element `type` array still becomes a one-variant `oneOf`. |
| JsonSchemaToOpenApi.WidgetLosesIdProperty | lib/JsonSchemaToOpenApi.ts:14-17 | A property named `id` is stripped out of `properties`. |
| JsonSchemaToOpenApi.WidgetExample | lib/JsonSchemaToOpenApi.ts:73-79 | The titled widget schema is filed under its title in `<title>.components.yaml`, with `properties: {}`. |
| TypeScriptToOpenApi.RemoveAt | lib/TypeScriptToOpenApi.ts:36 | `splice(i, 1)` shortens by one, keeps the elements before `i` and shifts the rest down. |
| TypeScriptToOpenApi.IndexOfNullName | lib/TypeScriptToOpenApi.ts:31 | `indexOf('null')` is -1 exactly when no element is the string `null`. Otherwise it is the first such index. |
| TypeScriptToOpenApi.FindNullMember | lib/TypeScriptToOpenApi.ts:43 | `findIndex` returns -1 or the index of a `{type: 'null'}` member. It throws only when some member is `null`. |
| TypeScriptToOpenApi.FindsFirstNullMember | lib/TypeScriptToOpenApi.ts:43 | The first `{type: 'null'}` member is found when no `null` member precedes it. |
| TypeScriptToOpenApi.FindNullMemberThrows | lib/TypeScriptToOpenApi.ts:43 | A `null` member met before any `{type: 'null'}` member throws. |
| TypeScriptToOpenApi.ConvertNullToNullable | lib/TypeScriptToOpenApi.ts:29-59 | A `null` node throws. A throw on an object means its `anyOf` holds a `null`. Other primitives and arrays are unchanged. An object stays an object. |
| TypeScriptToOpenApi.FoldTypeUnion | lib/TypeScriptToOpenApi.ts:30-40 | A `type` array without `null` leaves the node as it was. With one, `nullable` is true. No key but `type` and `nullable` changes. |
| TypeScriptToOpenApi.FoldAnyOf | lib/TypeScriptToOpenApi.ts:46-57 | Unless one member is left, `anyOf` holds the other members and `nullable` is true. With one left, that member's own keys take its values. No other key but `anyOf` and `nullable` changes. |
| TypeScriptToOpenApi.TypeUnionFolding | lib/TypeScriptToOpenApi.ts:30-40 | Only the first `null` name goes and `nullable` becomes true. `type` keeps its place and becomes the single remaining name when one is left. All other keys are unchanged. |
| TypeScriptToOpenApi.TypeUnionWithoutNull | lib/TypeScriptToOpenApi.ts:30-33 | A `type` array without `null` leaves the node unchanged, and `anyOf` is not consulted. |
| TypeScriptToOpenApi.AnyOfFolding | lib/TypeScriptToOpenApi.ts:41-57 | The first `{type: 'null'}` member goes and `nullable` becomes true. With one member left, `anyOf` is deleted and that member's entries are assigned over the node. |
| TypeScriptToOpenApi.AnyOfNullMemberThrows | lib/TypeScriptToOpenApi.ts:41-43 | A `null` `anyOf` member before any `{type: 'null'}` member throws. |
| TypeScriptToOpenApi.AnyOfWithoutNull | lib/TypeScriptToOpenApi.ts:41-45 | Without a null-typed member the node is unchanged. |
| TypeScriptToOpenApi.AnyOfCollapseExample | lib/TypeScriptToOpenApi.ts:41-57 | `{anyOf: [{type: t}, {type: 'null'}]}` becomes `{nullable: true, type: t}`. |
| TypeScriptToOpenApi.AnyOfKeepExample | lib/TypeScriptToOpenApi.ts:41-51 | With two members left, `anyOf` keeps them and `nullable` is added after it. |
| TypeScriptToOpenApi.ExpansionWrites | lib/TypeScriptToOpenApi.ts:71-76 | Every map write comes from an expandable name and its definition. Every expandable name with a definition is written under `'#/definitions/' + enc(name)`. |
| TypeScriptToOpenApi.ExpansionMap | lib/TypeScriptToOpenApi.ts:71-76 | The expansion map has distinct keys. |
| TypeScriptToOpenApi.ExpansionMapLookup | lib/TypeScriptToOpenApi.ts:71-76 | For injective `enc`, an expandable name's reference maps to exactly its definition. |
| TypeScriptToOpenApi.ExpansionMapOnlyExpandable | lib/TypeScriptToOpenApi.ts:71-76 | Only references of expandable names of the table are in the map. |
| TypeScriptToOpenApi.StepEntry | lib/TypeScriptToOpenApi.ts:82-124 | One entry is skipped exactly when its key is listed in `removeProps`. A write keeps its key. An early return happens exactly for a string `$ref` that names a truthy map entry. |
| TypeScriptToOpenApi.WalkItems | lib/TypeScriptToOpenApi.ts:94-101 | Arrays keep their length and order, and each item is walked on its own. |
| TypeScriptToOpenApi.WalkInline | lib/TypeScriptToOpenApi.ts:112-115 | The loop returns early exactly when some entry returns, and it returns that entry's copy. |
| TypeScriptToOpenApi.WalkKeys | lib/TypeScriptToOpenApi.ts:82-83 | Without an early return, the written keys are the input keys not in `removeProps`, in order. |
| TypeScriptToOpenApi.Recurse | lib/TypeScriptToOpenApi.ts:79-127 | `recurse(object)` below the root: the entry loop, ended by `return result` or by an early return. What it computes is stated by `RecurseResult`, `RecurseKeys`, `RecurseEntry` and `RefInlining`. |
| TypeScriptToOpenApi.RecurseResult | lib/TypeScriptToOpenApi.ts:79-127 | A walked node has distinct keys. It is the shallow copy of an expandable definition exactly when `$ref` is not removed and one of its `$ref` entries is a string naming that definition. Otherwise it is its writes assigned to a fresh object. |
| TypeScriptToOpenApi.InlineWhenRef | lib/TypeScriptToOpenApi.ts:82-121 | The loop returns early exactly when `$ref` is not removed and some `$ref` entry is a string that the expansion map marks expandable. |
| TypeScriptToOpenApi.InlinedCopy | lib/TypeScriptToOpenApi.ts:112-115 | The copy returned early is a shallow copy of the definition named by one of the object's `$ref` strings. |
| TypeScriptToOpenApi.RefInlining | lib/TypeScriptToOpenApi.ts:112-115 | A `$ref` to an expandable definition replaces the whole node with a shallow copy of the definition, whatever the other entries. Otherwise the loop does not return early. |
| TypeScriptToOpenApi.RecurseKeys | lib/TypeScriptToOpenApi.ts:79-127 | A node without an inlining `$ref` keeps exactly its keys that are not removed, in order. |
| TypeScriptToOpenApi.RecurseEntry | lib/TypeScriptToOpenApi.ts:94-123 | Key by key: arrays are walked item by item and objects recursively. A `$ref` string is rewritten to `#/components/schemas/`. Other values are copied. Removed keys are gone. |
| TypeScriptToOpenApi.RecurseAvoids | lib/TypeScriptToOpenApi.ts:83 | When the expandable definitions avoid `removeProps` keys, the walked node holds no `removeProps` key at any depth reached through objects and array items. |
| TypeScriptToOpenApi.RootStep | lib/TypeScriptToOpenApi.ts:83-92 | At the root, removed and expandable names are skipped, and only they are. A name that is neither expandable nor a GraphQL wrapper is processed like a nested entry. A write keeps its name, and only `$ref` can return early. |
| TypeScriptToOpenApi.ModifySchema | lib/TypeScriptToOpenApi.ts:61-63 | A `null` table gives `undefined`. Any other table that does not throw gives a result. |
| TypeScriptToOpenApi.RootWalkOutcome | lib/TypeScriptToOpenApi.ts:79-129 | A table whose `$ref` entries, if any, are not strings never returns early at the root. A table of schema objects always qualifies, including one with a definition named `$ref`. It throws exactly when folding one of its GraphQL wrapper definitions throws. |
| TypeScriptToOpenApi.ModifiedTableKeys | lib/TypeScriptToOpenApi.ts:83-86 | The output names are exactly the table names that are neither removed nor expandable. |
| TypeScriptToOpenApi.ModifiedTableEntry | lib/TypeScriptToOpenApi.ts:85-123 | Each kept definition is walked as a nested value. A GraphQL wrapper definition is first folded by `convertNullToNullable`. |
| TypeScriptToOpenApi.MergeDefinitions | lib/TypeScriptToOpenApi.ts:150-154 | The merged table has distinct keys. |
| TypeScriptToOpenApi.MergedKeys | lib/TypeScriptToOpenApi.ts:150-154 | A merged name exists exactly when some per-type result has it. `undefined` results contribute nothing. |
| TypeScriptToOpenApi.MergeLastWins | lib/TypeScriptToOpenApi.ts:152 | On equal names, the last result that has the name wins. |
| TypeScriptToOpenApi.ModifyAll | lib/TypeScriptToOpenApi.ts:136-148 | One result per type, in order, each being that type's `modifySchema`. It throws exactly when one of them throws. |
| TypeScriptToOpenApi.ConvertTypeScript | lib/TypeScriptToOpenApi.ts:132-154 | The document is `{components: {schemas: merge}}` of the per-type results. It throws exactly when one `modifySchema` throws. |
| TypeScriptToOpenApi.RewriteDefinitionRef | lib/TypeScriptToOpenApi.ts:117 | `#/definitions/X` is rewritten to `#/components/schemas/X`. |
| TypeScriptToOpenApi.InliningExample | lib/TypeScriptToOpenApi.ts:70-129 | A definition holding only a `$ref` to an expandable `n` becomes `n`'s body, and `n` itself is not emitted. |
| TypeScriptToOpenApi.SelfReferenceExample | lib/TypeScriptToOpenApi.ts:112-115 | A self-referencing expandable type terminates but leaves its `#/definitions/` reference dangling. |
| ProjectToOpenApi.PruneItem | lib/ProjectToOpenApi.ts:23-30 | An array item is dropped when it is `null` or an object with no entries. Other non-object items, nested arrays included, are kept unchanged. |
| ProjectToOpenApi.PruneItems | lib/ProjectToOpenApi.ts:23-30 | The kept items are no more than the input and contain no `null`. |
| ProjectToOpenApi.PruneItemsConcat | lib/ProjectToOpenApi.ts:23-30 | Pruning a concatenation gives the concatenation of the pruned parts. |
| ProjectToOpenApi.PruneItemsPerItem | lib/ProjectToOpenApi.ts:23-30 | Each item, wherever it stands, appears once in its place as its pruned form, or not at all when it is `null` or an object with no entries. |
| ProjectToOpenApi.PruneValue | lib/ProjectToOpenApi.ts:20-46 | An array value is dropped exactly when no item survives, an object value exactly when it has no entries. Scalars, `null` included, are copied. |
| ProjectToOpenApi.Prune | lib/ProjectToOpenApi.ts:11-50 | No entries gives `undefined`, otherwise an object with distinct keys. |
| ProjectToOpenApi.RemoveEmptyJson | lib/ProjectToOpenApi.ts:11-17 | `null`, booleans, numbers and `{}` give `undefined`. A non-empty object gives an object of pruned shape. |
| ProjectToOpenApi.PrunedKeysFromInput | lib/ProjectToOpenApi.ts:19-49 | Every output key is an input key: nothing is added or renamed. |
| ProjectToOpenApi.PruneOfUniqueKeys | lib/ProjectToOpenApi.ts:19-49 | With distinct input keys, the output is the kept entries in input order. |
| ProjectToOpenApi.PrunedLookup | lib/ProjectToOpenApi.ts:19-49 | Key by key: an input key is kept exactly when its value prunes to something, and it then holds that pruned value. |
| ProjectToOpenApi.PruneShape | lib/ProjectToOpenApi.ts:20-43 | At every level pruning visits, the output has no empty array value and no `null` array item. |
| ProjectToOpenApi.PruneFixedPoints | lib/ProjectToOpenApi.ts:11-50 | Pruning leaves an object unchanged exactly when it is non-empty, of pruned shape, and has no empty object below the top. |
| ProjectToOpenApi.PruneTwice | lib/ProjectToOpenApi.ts:17 | The first pass leaves the pruned shape. A second pass changes nothing exactly when that output is non-empty and its shape is settled: the pruned shape with no empty object below the top. |
| ProjectToOpenApi.MixedEntriesExample | lib/ProjectToOpenApi.ts:20-46 | `{a: {}, b: [], c: null, d: x}` prunes to `{c: null, d: x}`. |
| ProjectToOpenApi.ArrayItemsExample | lib/ProjectToOpenApi.ts:23-30 | Inside an array, `null` and `{}` items go and an empty nested array stays. |
| ProjectToOpenApi.PruneNotIdempotent | lib/ProjectToOpenApi.ts:17 | `{a: {b: {}}}` prunes to `{a: {}}`, which prunes further to `{}`. |

## Left out

- File streams, globbing, reading and writing files, and YAML parsing and serialising are left out. They are asynchronous I/O plumbing around the pure transformation. This covers lib/JsonSchemaToOpenApi.ts:61-72 and 80-94, lib/TypeScriptToOpenApi.ts:160-191 and lib/ProjectToOpenApi.ts:53-80.
- The TypeScript schema generator and swagger-jsdoc are left out. They are external libraries; the model takes the definitions tables, and the document to prune, as inputs.
- The output-file renames at lib/ProjectToOpenApi.ts:72,76 and lib/TypeScriptToOpenApi.ts:173 are left out. They are cosmetic path handling done by the writer.
- lib/Helpers.ts is not part of this model. It loads configuration files and fills in every option, so the defaults `modifySchema` destructures at lib/TypeScriptToOpenApi.ts:64-69 never take effect; the model takes the four options as given.
- lib/ViewOpenAPI.ts (a local web server) is not part of this model. Neither are the older `.js` copies of the library, index.js or the type declarations.
- `isType` from strong-typeof is read as tagging arrays `array` and `null` `null`, never `object`. This is the `Json` constructors' own distinction.
- Strings are sequences of Unicode scalar values, not of UTF-16 code units. `Object.entries` of a string with a character outside the Basic Multilingual Plane has two entries (one per surrogate) in JavaScript and one in the model. This reaches `CleanDocument` of a string document, `FoldAnyOf` with a string survivor, the shallow copy of a string definition, `ModifySchema` of a string table and `RemoveEmptyJson` of a string document.
- JavaScript places integer-like keys before other keys in an object. The model keeps insertion order for every key.
- `undefined` values are not modelled. Wherever the core can meet one, it treats it as it treats `null`: `isType` classes neither as an array or an object, so both are copied under a key and walked past by `recurse`; both are filtered out of arrays by the cleaner and the pruner; `modifySchema` returns nothing for both; and `title ?` finds both falsy. An absent title is the model's `None`, printed `"undefined"`.
- `Text.ReplaceFirst`: the `$`-patterns of a replacement string are not interpreted. The only replacement used, `#/components/schemas/`, has none.
- Numbers are uninterpreted reals. `String(number)` is the parameter `numberText`, and `encodeURIComponent` is the parameter `enc`.
- `convertNullToNullable` mutates the definition in place. The model returns the changed node instead. No other part of the table can observe the change, because expandable names are skipped at the root before any fold.
- `TypeScriptToOpenApi.ConvertNullToNullable`: its contract states when the fold throws and what it leaves alone. The full result is stated by `TypeUnionFolding` and `AnyOfFolding`.
