/** The fixed names the converters share (lib/Constants.ts). */
module Constants {

  /** The directory the generated component files are written under. */
  const ProjectAssets: string := ".swagger-wagon"

  /** The configuration file looked up when no options are passed. */
  const ProjectConfig: string := ".pj2openapirc"

  datatype FolderNames = FolderNames(schema: string, ts: string)

  /** Sub-directories of `ProjectAssets`, one per converter. */
  const Folders: FolderNames := FolderNames("json-schema", "typescript")

  /** The generated component files, handed to the OpenAPI document scanner
      ahead of any user-supplied globs. */
  const ProjectGlobs: seq<string> :=
    [ProjectAssets + "/" + Folders.ts + "/*.yaml", ProjectAssets + "/" + Folders.schema + "/*.yaml"]

  /** JSON Schema keywords an OpenAPI 3.0 schema object does not accept;
      the JSON Schema converter strips them at every level it visits. */
  const UnsupportedKeywords: seq<string> := [
    "$schema",
    "additionalItems",
    "const",
    "contains",
    "dependencies",
    "examples",
    "id",
    "$id",
    "patternProperties",
    "propertyNames",
    "if",
    "then",
    "else"
  ]

  /** The two generated-file globs, TypeScript output first. */
  lemma ProjectGlobsSpelledOut()
    ensures ProjectGlobs == [".swagger-wagon/typescript/*.yaml", ".swagger-wagon/json-schema/*.yaml"]
  {
    assert ProjectAssets + "/" + Folders.ts + "/*.yaml" == ".swagger-wagon/typescript/*.yaml";
    assert ProjectAssets + "/" + Folders.schema + "/*.yaml" == ".swagger-wagon/json-schema/*.yaml";
  }

  /** Thirteen keywords, no two alike. */
  lemma UnsupportedKeywordsDistinct()
    ensures |UnsupportedKeywords| == 13
    ensures forall i, j :: 0 <= i < j < |UnsupportedKeywords| ==> UnsupportedKeywords[i] != UnsupportedKeywords[j]
  {
  }

  /** The keys the converters themselves read or produce (`title`, `type`,
      `oneOf`, `anyOf`, `nullable`, `$ref`) are not unsupported keywords, so
      cleaning never removes what component naming and `type`-array
      flattening depend on. */
  lemma UnsupportedKeywordsFacts()
    ensures "title" !in UnsupportedKeywords && "type" !in UnsupportedKeywords
    ensures "oneOf" !in UnsupportedKeywords && "anyOf" !in UnsupportedKeywords
    ensures "nullable" !in UnsupportedKeywords && "$ref" !in UnsupportedKeywords
  {
    Supported("title");
    Supported("type");
    Supported("oneOf");
    Supported("anyOf");
    Supported("nullable");
    Supported("$ref");
  }

  /** A key is no unsupported keyword when each keyword differs from it in
      length, in its first character or in its last. */
  lemma Supported(k: string)
    requires k != []
    requires forall i :: 0 <= i < |UnsupportedKeywords| ==> Differs(UnsupportedKeywords[i], k)
    ensures k !in UnsupportedKeywords
  {
    forall i | 0 <= i < |UnsupportedKeywords|
      ensures UnsupportedKeywords[i] != k
    {
      assert Differs(UnsupportedKeywords[i], k);
    }
  }

  predicate Differs(a: string, b: string)
    requires b != []
  {
    |a| != |b| || a[0] != b[0] || a[|a| - 1] != b[|b| - 1]
  }
}
