/** The scalar type table of src/index.ts (`convertToTypescriptTypes`). */
module TypeMapper {

  /** The twelve numeric scalar keywords of Protocol Buffers. */
  const NumericScalars: set<string> := {
    "double", "float", "int32", "int64", "uint32", "uint64",
    "sint32", "sint64", "fixed32", "fixed64", "sfixed32", "sfixed64"
  }

  /** The closed lookup table: every scalar keyword and the TypeScript type it maps to. */
  const ScalarTable: map<string, string> := map[
    "double" := "number", "float" := "number",
    "int32" := "number", "int64" := "number",
    "uint32" := "number", "uint64" := "number",
    "sint32" := "number", "sint64" := "number",
    "fixed32" := "number", "fixed64" := "number",
    "sfixed32" := "number", "sfixed64" := "number",
    "bool" := "boolean",
    "string" := "string", "bytes" := "string"
  ]

  /** Maps a scalar keyword to its TypeScript type; any other name (a message or enum
      reference) passes through unchanged. */
  function ConvertToTypescriptType(token: string): (r: string)
    ensures token in NumericScalars ==> r == "number"
    ensures token == "bool" ==> r == "boolean"
    ensures token == "string" || token == "bytes" ==> r == "string"
    ensures token !in NumericScalars && token !in {"bool", "string", "bytes"} ==> r == token
  {
    if token in ScalarTable then ScalarTable[token] else token
  }

  /** The scalar keywords are exactly the keys of the table. */
  lemma TableIsClosed()
    ensures ScalarTable.Keys == NumericScalars + {"bool", "string", "bytes"}
  {
  }

  /** Every result is a TypeScript primitive or the unchanged name, so mapping twice changes
      nothing more. */
  lemma ConvertIdempotent(token: string)
    ensures ConvertToTypescriptType(ConvertToTypescriptType(token)) == ConvertToTypescriptType(token)
  {
  }

  /** A name that starts with a character no keyword starts with is never a scalar. */
  lemma ConvertKeepsForeign(token: string)
    requires token != [] && !('a' <= token[0] <= 'z')
    ensures ConvertToTypescriptType(token) == token
  {
    assert token !in ScalarTable.Keys by {
      forall k | k in ScalarTable.Keys ensures 'a' <= k[0] <= 'z' {}
    }
  }
}
