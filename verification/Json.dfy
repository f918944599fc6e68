/**
 JSON values. Objects are maps, as `sort_keys` makes their text independent of key order; the object keys
 that the modelled code names are constructors, and every other key is `Other`.
 */
module Json {
  datatype Name =
    | KSchema | KRepository | KBaseGeneration | KOverlayGeneration | KAttempt | KWorktreeId | KLeaseId
    | KFencingToken | KAllowedPaths | KOperations | KVerificationCommands | KChangesetId
    | KOp | KPath | KBefore | KAfter | KDest | KContentB64 | KContent | KEncoding | KLineMap | KLineMapSha
    | KStartLine | KEndLine | KLineStart | KLineEnd | KByteStart | KByteEnd | KOffset | KByteOffset
    | KSequence | KBinarySha | KState | KPrevHash | KEvidence | KRecordHash
    | Other(text: string)

  datatype Json =
    | JNull
    | JBool(b: bool)
    | JInt(n: int)
    | JString(s: string)
    | JArray(items: seq<Json>)
    | JObject(fields: map<Name, Json>)

  /** `value.get(key)`. */
  function Get(fields: map<Name, Json>, key: Name): Json {
    if key in fields then fields[key] else JNull
  }
}
