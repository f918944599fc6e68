/**
 Changesets and their operations: construction, the JSON form, and reading the JSON form back.

 The library codecs (JSON text, SHA-256, base64, text encodings) are functions in `Codecs`; the laws that
 results need are stated by `Lawful`. SHA-256 has a fixed width but is never assumed to be injective.
 */
module ChangeSet {
  import opened Bytes
  import opened Json
  import opened Ordering
  import opened Wrappers

  datatype Codecs = Codecs(
    sha256: Bytes -> Bytes,
    hex: Bytes -> string,
    dumps: Json -> Bytes,
    loads: Bytes -> Option<Json>,
    encodeUtf8: string -> Bytes,
    encode: (string, string) -> Bytes,
    decode: (string, Bytes) -> Option<string>,
    b64: Bytes -> string,
    unb64: string -> Option<Bytes>,
    isSpace: char -> bool)

  ghost predicate Lawful(k: Codecs) {
    && (forall x :: |k.sha256(x)| == 32)
    && (forall v :: k.loads(k.dumps(v)) == Some(v))
    && (forall x :: k.unb64(k.b64(x)) == Some(x))
    && !k.isSpace('/') && !k.isSpace('\\')
  }

  datatype Error =
    | OperationInvalid | OperationTypeInvalid | PathInvalid | PathOutsideRepository | Sha256Invalid
    | ContentInvalid | ContentEncodingInvalid | AmbiguousByteOffset | EncodingRequired | EncodingInvalid
    | LineMapRequired | LineMapInvalid | LineMapHashInvalid | LineMapHashMismatch
    | CreatePayloadMissing | ReplacePayloadMissing | RenamePayloadMissing | DeletePayloadMissing
    | RenameDestinationInvalid
    | SchemaInvalid | OperationsInvalid | OperationsMissing | AllowedPathsInvalid
    | AllowedPathsMissing | PathNotAllowed | BindingMissing | WorktreeInvalid | AuthorityMissing
    | VerificationCommandsInvalid | ChangesetIdMismatch
    | BinaryTruncated | BinaryHeaderInvalid | BinaryLengthMismatch | BinaryChecksumMismatch | MetadataInvalid
    | RecordTruncated | RecordChecksumMismatch | RecordInvalid | SectionLengthMismatch | StructError | TypeError

  function Schema(): string {
    "simplicio.fast.binary-changeset/v1"
  }

  // ---------- Text checks ----------

  predicate Blank(k: Codecs, s: string) {
    forall c | c in s :: k.isSpace(c)
  }

  /** `_text`. */
  function Text(k: Codecs, value: Json, error: Error): (r: Result<string, Error>)
    ensures r.Success? <==> value.JString? && !Blank(k, value.s)
    ensures r.Success? ==> r.value == value.s
    ensures r.Failure? ==> r.error == error
  {
    if value.JString? && !Blank(k, value.s) then Success(value.s) else Failure(error)
  }

  function Lower(s: string): (r: string)
    ensures |r| == |s|
    ensures forall i {:trigger r[i]} | 0 <= i < |s| ::
      r[i] == if 'A' <= s[i] <= 'F' then s[i] - 'A' + 'a' else s[i]
  {
    if s == "" then ""
    else [if 'A' <= s[0] <= 'F' then s[0] - 'A' + 'a' else s[0]] + Lower(s[1..])
  }

  predicate IsHexChar(c: char) {
    '0' <= c <= '9' || 'a' <= c <= 'f'
  }

  /** `_sha` of an optional value. */
  function Sha(value: Json): (r: Result<Option<string>, Error>)
    ensures r.Success? && r.value.Some? ==> IsSha(r.value.value)
    ensures value == JNull ==> r == Success(None)
  {
    if value == JNull then Success(None)
    else if value.JString? && |value.s| == 64 && (forall c | c in Lower(value.s) :: IsHexChar(c)) then
      Success(Some(Lower(value.s)))
    else Failure(Sha256Invalid)
  }

  /** A digest as `_sha` returns it. */
  predicate IsSha(s: string) {
    |s| == 64 && forall c | c in s :: IsHexChar(c)
  }

  lemma ShaKeeps(s: string)
    requires IsSha(s)
    ensures Sha(JString(s)) == Success(Some(s))
  {
    assert forall i | 0 <= i < |s| :: s[i] in s;
    assert Lower(s) == s;
  }

  // ---------- Paths ----------

  function Slashes(s: string): (r: string)
    ensures |r| == |s|
    ensures forall i {:trigger r[i]} | 0 <= i < |s| :: r[i] == if s[i] == '\\' then '/' else s[i]
  {
    if s == "" then "" else [if s[0] == '\\' then '/' else s[0]] + Slashes(s[1..])
  }

  /** `s.split("/")`. */
  function Parts(s: string): (r: seq<string>)
    ensures r != []
  {
    if s == "" then [""]
    else
      var rest := Parts(s[1..]);
      if s[0] == '/' then [""] + rest else [[s[0]] + rest[0]] + rest[1..]
  }

  /** `_path`: normalised and inside the repository. */
  function NormalPath(value: string): Result<string, Error> {
    if value == "" || '\0' in value || ':' in value then Failure(PathInvalid)
    else
      var normalized := Slashes(value);
      var parts := Parts(normalized);
      if ".." in parts || "." in parts then Failure(PathOutsideRepository)
      else if "" in parts then Failure(PathInvalid)
      else Success(normalized)
  }

  lemma NormalPathIdempotent(value: string)
    requires NormalPath(value).Success?
    ensures NormalPath(NormalPath(value).value) == NormalPath(value)
  {
    var n := NormalPath(value).value;
    assert n == Slashes(value);
    assert forall i | 0 <= i < |n| :: n[i] != '\\';
    assert Slashes(n) == n;
    assert forall c | c in n :: c == '/' || c in value;
  }

  lemma NormalPathNotBlank(k: Codecs, value: string)
    requires Lawful(k) && NormalPath(value).Success? && !Blank(k, value)
    ensures !Blank(k, NormalPath(value).value)
  {
    var n := NormalPath(value).value;
    var c :| c in value && !k.isSpace(c);
    var i :| 0 <= i < |value| && value[i] == c;
    assert n[i] in n && !k.isSpace(n[i]);
  }

  // ---------- Operations ----------

  datatype OpType = Create | ReplaceRange | Rename | Delete

  function OpName(t: OpType): string {
    match t
    case Create => "create"
    case ReplaceRange => "replace-range"
    case Rename => "rename"
    case Delete => "delete"
  }

  function Dashes(s: string): string {
    if s == "" then "" else [if s[0] == '_' then '-' else s[0]] + Dashes(s[1..])
  }

  function ParseOp(raw: string): Option<OpType> {
    var s := Dashes(raw);
    if s == OpName(Create) then Some(Create)
    else if s == OpName(ReplaceRange) then Some(ReplaceRange)
    else if s == OpName(Rename) then Some(Rename)
    else if s == OpName(Delete) then Some(Delete)
    else None
  }

  lemma {:induction false} DashesKeeps(s: string)
    requires '_' !in s
    ensures Dashes(s) == s
  {
    if s != "" {
      DashesKeeps(s[1..]);
    }
  }

  lemma OpNamesDiffer()
    ensures OpName(Create) != OpName(ReplaceRange) && OpName(Create) != OpName(Rename)
    ensures OpName(Create) != OpName(Delete)
    ensures OpName(ReplaceRange) != OpName(Rename) && OpName(ReplaceRange) != OpName(Delete)
    ensures OpName(Rename) != OpName(Delete)
  {
    assert OpName(Create)[0] == 'c' && OpName(Rename)[0] == 'r';
    assert OpName(Delete)[0] == 'd' && OpName(ReplaceRange)[0] == 'r';
    assert |OpName(ReplaceRange)| == 13 && |OpName(Rename)| == 6;
  }

  lemma OpNameHasNoUnderscore(t: OpType)
    ensures '_' !in OpName(t)
  {
  }

  lemma ParseOpName(t: OpType)
    ensures ParseOp(OpName(t)) == Some(t)
  {
    hide OpName;
    OpNamesDiffer();
    OpNameHasNoUnderscore(t);
    DashesKeeps(OpName(t));
  }

  datatype LineMap = LineMap(start: int, end: int)

  function LineMapJson(m: LineMap): Json {
    JObject(map[KStartLine := JInt(m.start), KEndLine := JInt(m.end)])
  }

  datatype ChangeOperation = ChangeOperation(
    op: OpType,
    path: string,
    before: Option<string>,
    after: Option<string>,
    dest: Option<string>,
    contentB64: Option<string>,
    encoding: Option<string>,
    lineMap: Option<LineMap>,
    lineMapSha: Option<string>)

  function Sha256Hex(k: Codecs, b: Bytes): string {
    k.hex(k.sha256(b))
  }

  function LineMapSha(k: Codecs, m: LineMap): string {
    Sha256Hex(k, k.dumps(LineMapJson(m)))
  }

  function OrNull(value: Option<string>): Json {
    if value.Some? then JString(value.value) else JNull
  }

  /** `if value is not None: fields[key] = value`. */
  function SetText(fields: map<Name, Json>, key: Name, value: Option<string>): map<Name, Json> {
    if value.Some? then fields[key := JString(value.value)] else fields
  }

  /** The decoded content that `to_dict` adds when it decodes. */
  function DecodedContent(k: Codecs, o: ChangeOperation): Option<string> {
    if o.contentB64.None? then None
    else
      var bytes := k.unb64(o.contentB64.value);
      if bytes.None? then None
      else k.decode(if o.encoding.None? || o.encoding.value == "" then "utf-8" else o.encoding.value, bytes.value)
  }

  function TextFields(k: Codecs, o: ChangeOperation): map<Name, Json> {
    var base := map[KOp := JString(OpName(o.op)), KPath := JString(o.path),
                    KBefore := OrNull(o.before), KAfter := OrNull(o.after)];
    var content := SetText(SetText(base, KDest, o.dest), KContentB64, o.contentB64);
    SetText(SetText(content, KContent, DecodedContent(k, o)), KEncoding, o.encoding)
  }

  /** `ChangeOperation.to_dict`. */
  function OpFields(k: Codecs, o: ChangeOperation): map<Name, Json> {
    if o.lineMap.None? then TextFields(k, o)
    else TextFields(k, o)[KLineMap := LineMapJson(o.lineMap.value)][KLineMapSha := OrNull(o.lineMapSha)]
  }

  function OpJson(k: Codecs, o: ChangeOperation): Json {
    JObject(OpFields(k, o))
  }

  function ReadDest(k: Codecs, v: map<Name, Json>): Result<Option<string>, Error> {
    if Get(v, KDest) == JNull then Success(None)
    else
      var text :- Text(k, v[KDest], PathInvalid);
      var path :- NormalPath(text);
      Success(Some(path))
  }

  function ReadContent(k: Codecs, v: map<Name, Json>): Result<Option<string>, Error> {
    if Get(v, KContentB64) == JNull then
      if Get(v, KContent) == JNull then Success(None)
      else if !v[KContent].JString? then Failure(ContentInvalid)
      else CheckContent(k, k.b64(k.encodeUtf8(v[KContent].s)))
    else if !v[KContentB64].JString? then Failure(ContentEncodingInvalid)
    else CheckContent(k, v[KContentB64].s)
  }

  function CheckContent(k: Codecs, b64: string): Result<Option<string>, Error> {
    if k.unb64(b64).None? then Failure(ContentEncodingInvalid) else Success(Some(b64))
  }

  /** The line numbers of a `replace-range`, from its line map or from the two line fields. */
  function ReadLines(v: map<Name, Json>): Result<LineMap, Error> {
    var raw := Get(v, KLineMap);
    if raw == JNull then
      var start := if KStartLine in v then v[KStartLine] else Get(v, KLineStart);
      var end := if KEndLine in v then v[KEndLine] else Get(v, KLineEnd);
      if !start.JInt? || !end.JInt? then Failure(LineMapRequired) else CheckLines(LineMap(start.n, end.n))
    else if !raw.JObject? then Failure(LineMapInvalid)
    else
      var start, end := Get(raw.fields, KStartLine), Get(raw.fields, KEndLine);
      if !start.JInt? || !end.JInt? then Failure(LineMapInvalid) else CheckLines(LineMap(start.n, end.n))
  }

  function CheckLines(m: LineMap): Result<LineMap, Error> {
    if m.start < 1 || m.end < m.start then Failure(LineMapInvalid) else Success(m)
  }

  datatype Range = Range(encoding: Option<string>, lineMap: Option<LineMap>, lineMapSha: Option<string>)

  function ReadRange(k: Codecs, op: OpType, v: map<Name, Json>): Result<Range, Error> {
    if op == ReplaceRange then
      :- Need(KByteStart !in v && KByteEnd !in v && KOffset !in v && KByteOffset !in v, AmbiguousByteOffset);
      var encoding :- Text(k, if KEncoding in v then v[KEncoding] else JString("utf-8"), EncodingRequired);
      var lines :- ReadLines(v);
      var supplied := Get(v, KLineMapSha);
      :- Need(supplied == JNull || supplied.JString?, LineMapHashInvalid);
      :- Need(supplied == JNull || supplied.s == LineMapSha(k, lines), LineMapHashMismatch);
      Success(Range(Some(encoding), Some(lines), Some(LineMapSha(k, lines))))
    else
      var encoding :- OptionalField(k, v, KEncoding, EncodingInvalid);
      var sha :- OptionalField(k, v, KLineMapSha, LineMapHashInvalid);
      Success(Range(encoding, None, sha))
  }

  function OptionalField(k: Codecs, v: map<Name, Json>, key: Name, error: Error): Result<Option<string>, Error> {
    if Get(v, key) == JNull then Success(None)
    else
      var text :- Text(k, v[key], error);
      Success(Some(text))
  }

  /** The payload each operation type needs. */
  function CheckPayload(o: ChangeOperation): Outcome<Error> {
    if o.op == Create && (o.contentB64.None? || o.after.None?) then Fail(CreatePayloadMissing)
    else if o.op == ReplaceRange && (o.contentB64.None? || o.before.None? || o.after.None?) then
      Fail(ReplacePayloadMissing)
    else if o.op == Rename && (o.dest.None? || o.before.None? || o.after.None?) then Fail(RenamePayloadMissing)
    else if o.op == Delete && o.before.None? then Fail(DeletePayloadMissing)
    else if o.op == Rename && o.dest == Some(o.path) then Fail(RenameDestinationInvalid)
    else Pass
  }

  /** `ChangeOperation.from_dict`. */
  function ReadOperation(k: Codecs, value: Json): Result<ChangeOperation, Error> {
    if !value.JObject? then Failure(OperationInvalid)
    else
      var v := value.fields;
      var raw := Get(v, KOp);
      if !raw.JString? || ParseOp(raw.s).None? then Failure(OperationTypeInvalid)
      else
        var op := ParseOp(raw.s).value;
        var text :- Text(k, Get(v, KPath), PathInvalid);
        var path :- NormalPath(text);
        var dest :- ReadDest(k, v);
        var before :- Sha(Get(v, KBefore));
        var after :- Sha(Get(v, KAfter));
        var content :- ReadContent(k, v);
        var range :- ReadRange(k, op, v);
        var o := ChangeOperation(op, path, before, after, dest, content, range.encoding, range.lineMap,
                                 range.lineMapSha);
        :- CheckPayload(o);
        Success(o)
  }

  // ---------- What a read operation looks like ----------

  predicate GoodPath(k: Codecs, path: string) {
    NormalPath(path) == Success(path) && !Blank(k, path)
  }

  /** What `from_dict` establishes. */
  predicate WellFormedOp(k: Codecs, o: ChangeOperation) {
    && GoodPath(k, o.path) && (o.dest.Some? ==> GoodPath(k, o.dest.value))
    && (o.before.Some? ==> IsSha(o.before.value)) && (o.after.Some? ==> IsSha(o.after.value))
    && (o.contentB64.Some? ==> k.unb64(o.contentB64.value).Some?)
    && (o.encoding.Some? ==> !Blank(k, o.encoding.value))
    && (if o.op == ReplaceRange
        then o.encoding.Some? && o.lineMap.Some? && CheckLines(o.lineMap.value).Success?
             && o.lineMapSha == Some(LineMapSha(k, o.lineMap.value))
        else o.lineMap.None?)
    && CheckPayload(o).Pass?
  }

  lemma ReadPathGood(k: Codecs, text: string)
    requires Lawful(k) && !Blank(k, text) && NormalPath(text).Success?
    ensures GoodPath(k, NormalPath(text).value)
  {
    NormalPathIdempotent(text);
    NormalPathNotBlank(k, text);
  }

  lemma ReadDestGood(k: Codecs, v: map<Name, Json>)
    requires Lawful(k) && ReadDest(k, v).Success? && ReadDest(k, v).value.Some?
    ensures GoodPath(k, ReadDest(k, v).value.value)
  {
    hide NormalPath, Blank, GoodPath;
    ReadPathGood(k, v[KDest].s);
  }

  lemma ReadOperationWellFormed(k: Codecs, value: Json)
    requires Lawful(k) && ReadOperation(k, value).Success?
    ensures WellFormedOp(k, ReadOperation(k, value).value)
  {
    hide NormalPath, ParseOp, IsSha, LineMapSha, Blank, ReadDest, Sha, GoodPath, ReadLines, Lawful;
    var v := value.fields;
    ReadPathGood(k, Get(v, KPath).s);
    if ReadDest(k, v).value.Some? {
      ReadDestGood(k, v);
    }
    if ReadOperation(k, value).value.op == ReplaceRange {
      ReadLinesChecked(v);
    }
  }

  lemma ReadLinesChecked(v: map<Name, Json>)
    requires ReadLines(v).Success?
    ensures CheckLines(ReadLines(v).value) == Success(ReadLines(v).value)
  {
  }

  /** The operation as it reads back: a stray line-map hash without a line map is not written. */
  function Canonical(o: ChangeOperation): ChangeOperation {
    if o.lineMap.None? then o.(lineMapSha := None) else o
  }

  lemma TextFieldsOf(k: Codecs, o: ChangeOperation)
    ensures var v := TextFields(k, o);
            && Get(v, KOp) == JString(OpName(o.op)) && Get(v, KPath) == JString(o.path)
            && Get(v, KBefore) == OrNull(o.before) && Get(v, KAfter) == OrNull(o.after)
            && Get(v, KDest) == OrNull(o.dest) && Get(v, KContentB64) == OrNull(o.contentB64)
            && Get(v, KContent) == OrNull(DecodedContent(k, o))
  {
    hide OpName, DecodedContent;
  }

  lemma FieldsOf(k: Codecs, o: ChangeOperation)
    ensures var v := OpFields(k, o);
            && Get(v, KOp) == JString(OpName(o.op)) && Get(v, KPath) == JString(o.path)
            && Get(v, KBefore) == OrNull(o.before) && Get(v, KAfter) == OrNull(o.after)
            && Get(v, KDest) == OrNull(o.dest) && Get(v, KContentB64) == OrNull(o.contentB64)
            && Get(v, KContent) == OrNull(DecodedContent(k, o))
  {
    hide OpName, LineMapJson, DecodedContent, OrNull, TextFields;
    TextFieldsOf(k, o);
  }

  lemma RangeFieldsOf(k: Codecs, o: ChangeOperation)
    ensures var v := OpFields(k, o);
            && Get(v, KEncoding) == OrNull(o.encoding) && (KEncoding in v <==> o.encoding.Some?)
            && (o.lineMap.Some? ==> Get(v, KLineMap) == LineMapJson(o.lineMap.value))
            && Get(v, KLineMapSha) == (if o.lineMap.Some? then OrNull(o.lineMapSha) else JNull)
            && KByteStart !in v && KByteEnd !in v && KOffset !in v && KByteOffset !in v
  {
    hide DecodedContent, LineMapJson;
  }

  lemma ReadRangeBack(k: Codecs, o: ChangeOperation)
    requires WellFormedOp(k, o)
    ensures ReadRange(k, o.op, OpFields(k, o)) == Success(Range(o.encoding, o.lineMap, Canonical(o).lineMapSha))
  {
    hide OpFields, OpName, GoodPath, IsSha, Blank, LineMapSha;
    RangeFieldsOf(k, o);
  }

  /** Writing an operation and reading it back gives it again, with the same JSON form. */
  lemma OperationRoundTrip(k: Codecs, o: ChangeOperation)
    requires WellFormedOp(k, o)
    ensures ReadOperation(k, OpJson(k, o)) == Success(Canonical(o))
    ensures OpFields(k, Canonical(o)) == OpFields(k, o)
  {
    hide OpName, ParseOp, NormalPath, IsSha, LineMapSha, Blank, ReadRange, Sha, OpFields;
    ParseOpName(o.op);
    if o.before.Some? { ShaKeeps(o.before.value); }
    if o.after.Some? { ShaKeeps(o.after.value); }
    ShaOfNull();
    FieldsOf(k, o);
    ReadRangeBack(k, o);
    CanonicalFields(k, o);
  }

  lemma ShaOfNull()
    ensures Sha(JNull) == Success(None)
  {
  }

  lemma CanonicalFields(k: Codecs, o: ChangeOperation)
    ensures OpFields(k, Canonical(o)) == OpFields(k, o)
  {
    hide OpName, LineMapJson;
  }

  // ---------- Changesets ----------

  datatype ChangeSet = ChangeSet(
    repository: string,
    baseGeneration: string,
    overlayGeneration: string,
    attempt: string,
    worktreeId: string,
    leaseId: string,
    fencingToken: string,
    allowedPaths: seq<string>,
    operations: seq<ChangeOperation>,
    commands: seq<string>)

  /** `_worktree`: one path component that is not a dot name. */
  predicate IsWorktree(value: string) {
    value != "" && '/' !in value && value != "." && value != ".."
  }

  function NormalPaths(paths: seq<string>): Result<seq<string>, Error> {
    if paths == [] then Success([])
    else
      var first :- NormalPath(paths[0]);
      var rest :- NormalPaths(paths[1..]);
      Success([first] + rest)
  }

  function OpPaths(o: ChangeOperation): seq<string> {
    [o.path] + if o.dest.Some? then [o.dest.value] else []
  }

  function AllPaths(ops: seq<ChangeOperation>): seq<string> {
    if ops == [] then [] else OpPaths(ops[0]) + AllPaths(ops[1..])
  }

  predicate Allowed(o: ChangeOperation, allowed: seq<string>) {
    o.path in allowed && (o.dest.Some? ==> o.dest.value in allowed)
  }

  /** `__post_init__`. */
  function Construct(k: Codecs, c: ChangeSet): Result<ChangeSet, Error> {
    var bound := c.repository != "" && c.baseGeneration != "" && c.overlayGeneration != "" && c.attempt != "";
    :- Need(bound, BindingMissing);
    :- Need(IsWorktree(c.worktreeId), WorktreeInvalid);
    :- Need(c.leaseId != "" && c.fencingToken != "", AuthorityMissing);
    :- Need(forall p | p in c.allowedPaths :: !Blank(k, p), AllowedPathsInvalid);
    :- Need(forall p | p in c.commands :: !Blank(k, p), VerificationCommandsInvalid);
    var paths :- NormalPaths(c.allowedPaths);
    var allowed := SortedSet(paths);
    :- Need(allowed != [], AllowedPathsMissing);
    :- Need(c.operations != [], OperationsMissing);
    :- Need(forall o | o in c.operations :: Allowed(o, allowed), PathNotAllowed);
    Success(c.(allowedPaths := allowed))
  }

  function Strings(s: seq<string>): (r: seq<Json>)
    ensures |r| == |s|
    ensures forall i {:trigger r[i]} | 0 <= i < |s| :: r[i] == JString(s[i])
  {
    if s == [] then [] else [JString(s[0])] + Strings(s[1..])
  }

  function OpJsons(k: Codecs, ops: seq<ChangeOperation>): (r: seq<Json>)
    ensures |r| == |ops|
    ensures forall i {:trigger r[i]} | 0 <= i < |ops| :: r[i] == OpJson(k, ops[i])
  {
    if ops == [] then [] else [OpJson(k, ops[0])] + OpJsons(k, ops[1..])
  }

  function Identity(k: Codecs, c: ChangeSet): map<Name, Json> {
    map[KSchema := JString(Schema()), KRepository := JString(c.repository),
        KBaseGeneration := JString(c.baseGeneration), KOverlayGeneration := JString(c.overlayGeneration),
        KAttempt := JString(c.attempt), KWorktreeId := JString(c.worktreeId), KLeaseId := JString(c.leaseId),
        KFencingToken := JString(c.fencingToken), KAllowedPaths := JArray(Strings(c.allowedPaths)),
        KOperations := JArray(OpJsons(k, c.operations)), KVerificationCommands := JArray(Strings(c.commands))]
  }

  function ChangesetId(k: Codecs, c: ChangeSet): string {
    Sha256Hex(k, k.dumps(JObject(Identity(k, c))))
  }

  /** `to_dict`. */
  function Fields(k: Codecs, c: ChangeSet): map<Name, Json> {
    Identity(k, c)[KChangesetId := JString(ChangesetId(k, c))]
  }

  function ReadOperations(k: Codecs, items: seq<Json>): Result<seq<ChangeOperation>, Error> {
    if items == [] then Success([])
    else
      var first :- ReadOperation(k, items[0]);
      var rest :- ReadOperations(k, items[1..]);
      Success([first] + rest)
  }

  function Texts(k: Codecs, items: seq<Json>, error: Error): Result<seq<string>, Error> {
    if items == [] then Success([])
    else
      var first :- Text(k, items[0], error);
      var rest :- Texts(k, items[1..], error);
      Success([first] + rest)
  }

  /** A list field that defaults to the empty list when absent. */
  function ListField(v: map<Name, Json>, key: Name, error: Error): Result<seq<Json>, Error> {
    if key !in v then Success([]) else if v[key].JArray? then Success(v[key].items) else Failure(error)
  }

  function ReadAllowed(k: Codecs, v: map<Name, Json>, ops: seq<ChangeOperation>): Result<seq<string>, Error> {
    var raw := Get(v, KAllowedPaths);
    if raw != JNull && !raw.JArray? then Failure(AllowedPathsInvalid)
    else if raw == JNull || raw.items == [] then Success(SortedSet(AllPaths(ops)))
    else Texts(k, raw.items, AllowedPathsInvalid)
  }

  /** `from_dict`. */
  function ReadChangeSet(k: Codecs, v: map<Name, Json>): Result<ChangeSet, Error> {
    var schema := Get(v, KSchema);
    :- Need(schema == JString(Schema()), SchemaInvalid);
    var items :- ListField(v, KOperations, OperationsInvalid);
    var operations :- ReadOperations(k, items);
    var allowed :- ReadAllowed(k, v, operations);
    var repository :- Text(k, Get(v, KRepository), BindingMissing);
    var baseGeneration :- Text(k, Get(v, KBaseGeneration), BindingMissing);
    var overlayGeneration :- Text(k, Get(v, KOverlayGeneration), BindingMissing);
    var attempt :- Text(k, Get(v, KAttempt), BindingMissing);
    var worktreeId :- Text(k, Get(v, KWorktreeId), WorktreeInvalid);
    var leaseId :- Text(k, Get(v, KLeaseId), AuthorityMissing);
    var fencingToken :- Text(k, Get(v, KFencingToken), AuthorityMissing);
    var rawCommands :- ListField(v, KVerificationCommands, VerificationCommandsInvalid);
    var commands :- Texts(k, rawCommands, VerificationCommandsInvalid);
    var c :- Construct(k, ChangeSet(repository, baseGeneration, overlayGeneration, attempt, worktreeId, leaseId,
                                    fencingToken, allowed, operations, commands));
    var supplied := Get(v, KChangesetId);
    :- Need(supplied == JNull || supplied == JString(ChangesetId(k, c)), ChangesetIdMismatch);
    Success(c)
  }

  // ---------- Constructed changesets ----------

  /** A changeset that the constructor returned, with operations that `from_dict` returned. */
  ghost predicate Constructed(k: Codecs, c: ChangeSet) {
    && Construct(k, c) == Success(c)
    && forall o | o in c.operations :: WellFormedOp(k, o)
  }

  /** `from_dict` demands text that is not blank where the constructor only demands text. */
  predicate BindingsNotBlank(k: Codecs, c: ChangeSet) {
    && !Blank(k, c.repository) && !Blank(k, c.baseGeneration) && !Blank(k, c.overlayGeneration)
    && !Blank(k, c.attempt) && !Blank(k, c.worktreeId) && !Blank(k, c.leaseId) && !Blank(k, c.fencingToken)
  }

  lemma {:induction false} NormalPathsMember(paths: seq<string>)
    requires NormalPaths(paths).Success?
    ensures forall q | q in NormalPaths(paths).value :: exists p :: p in paths && NormalPath(p) == Success(q)
    ensures |NormalPaths(paths).value| == |paths|
  {
    hide NormalPath;
    if paths != [] {
      NormalPathsMember(paths[1..]);
      var q0 := NormalPath(paths[0]).value;
      assert paths[0] in paths;
      forall q | q in NormalPaths(paths).value ensures exists p :: p in paths && NormalPath(p) == Success(q) {
        if q != q0 {
          var p :| p in paths[1..] && NormalPath(p) == Success(q);
          assert p in paths;
        }
      }
    }
  }

  lemma {:induction false} NormalPathsKeep(paths: seq<string>)
    requires forall p | p in paths :: NormalPath(p) == Success(p)
    ensures NormalPaths(paths) == Success(paths)
  {
    hide NormalPath;
    if paths != [] {
      assert forall p | p in paths[1..] :: p in paths;
      NormalPathsKeep(paths[1..]);
      assert paths == [paths[0]] + paths[1..];
    }
  }

  /** The constructor's output is a fixed point of the constructor. */
  lemma ConstructIdempotent(k: Codecs, raw: ChangeSet)
    requires Lawful(k) && Construct(k, raw).Success?
    ensures Construct(k, Construct(k, raw).value) == Construct(k, raw)
  {
    hide Blank, NormalPath, IsWorktree, SortedSet, NormalPaths;
    var paths := NormalPaths(raw.allowedPaths).value;
    var allowed := SortedSet(paths);
    SortedSetIdempotent(paths);
    NormalPathsMember(raw.allowedPaths);
    forall q | q in allowed ensures NormalPath(q) == Success(q) && !Blank(k, q) {
      var p :| p in raw.allowedPaths && NormalPath(p) == Success(q);
      NormalPathIdempotent(p);
      NormalPathNotBlank(k, p);
    }
    NormalPathsKeep(allowed);
  }

  // ---------- Round trip ----------

  function CanonicalOps(ops: seq<ChangeOperation>): (r: seq<ChangeOperation>)
    ensures |r| == |ops|
    ensures forall i {:trigger r[i]} | 0 <= i < |ops| :: r[i] == Canonical(ops[i])
  {
    if ops == [] then [] else [Canonical(ops[0])] + CanonicalOps(ops[1..])
  }

  function CanonicalSet(c: ChangeSet): ChangeSet {
    c.(operations := CanonicalOps(c.operations))
  }

  lemma {:induction false} OperationsRoundTrip(k: Codecs, ops: seq<ChangeOperation>)
    requires forall o | o in ops :: WellFormedOp(k, o)
    ensures ReadOperations(k, OpJsons(k, ops)) == Success(CanonicalOps(ops))
    ensures OpJsons(k, CanonicalOps(ops)) == OpJsons(k, ops)
  {
    hide WellFormedOp, ReadOperation, OpFields, Canonical;
    if ops != [] {
      assert forall o | o in ops[1..] :: o in ops;
      OperationsRoundTrip(k, ops[1..]);
      OperationRoundTrip(k, ops[0]);
      assert OpJsons(k, ops)[1..] == OpJsons(k, ops[1..]);
      assert CanonicalOps(ops)[1..] == CanonicalOps(ops[1..]);
    }
  }

  lemma {:induction false} TextsRoundTrip(k: Codecs, s: seq<string>, error: Error)
    requires forall p | p in s :: !Blank(k, p)
    ensures Texts(k, Strings(s), error) == Success(s)
  {
    hide Strings, Blank;
    if s != [] {
      assert forall p | p in s[1..] :: p in s;
      TextsRoundTrip(k, s[1..], error);
      assert Strings(s)[1..] == Strings(s[1..]);
      assert s == [s[0]] + s[1..];
    }
  }

  lemma SameIdentity(k: Codecs, c: ChangeSet)
    requires forall o | o in c.operations :: WellFormedOp(k, o)
    ensures Identity(k, CanonicalSet(c)) == Identity(k, c)
    ensures ChangesetId(k, CanonicalSet(c)) == ChangesetId(k, c)
  {
    hide Strings, OpJsons, CanonicalOps, WellFormedOp, Schema;
    OperationsRoundTrip(k, c.operations);
  }

  lemma ConstructCanonical(k: Codecs, c: ChangeSet)
    requires Construct(k, c) == Success(c)
    ensures Construct(k, CanonicalSet(c)) == Success(CanonicalSet(c))
  {
    hide Blank, NormalPath, IsWorktree, SortedSet, NormalPaths;
    forall o | o in CanonicalOps(c.operations) ensures Allowed(o, c.allowedPaths) {
      var i :| 0 <= i < |c.operations| && CanonicalOps(c.operations)[i] == o;
      assert c.operations[i] in c.operations;
    }
  }

  lemma FieldValues(k: Codecs, c: ChangeSet)
    ensures var v := Fields(k, c);
            && Get(v, KSchema) == JString(Schema()) && Get(v, KRepository) == JString(c.repository)
            && Get(v, KBaseGeneration) == JString(c.baseGeneration)
            && Get(v, KOverlayGeneration) == JString(c.overlayGeneration)
            && Get(v, KAttempt) == JString(c.attempt) && Get(v, KWorktreeId) == JString(c.worktreeId)
            && Get(v, KLeaseId) == JString(c.leaseId) && Get(v, KFencingToken) == JString(c.fencingToken)
            && Get(v, KAllowedPaths) == JArray(Strings(c.allowedPaths))
            && Get(v, KChangesetId) == JString(ChangesetId(k, c))
  {
    hide Schema, Strings, OpJsons, ChangesetId;
  }

  lemma ListValues(k: Codecs, c: ChangeSet)
    ensures var v := Fields(k, c);
            && ListField(v, KOperations, OperationsInvalid) == Success(OpJsons(k, c.operations))
            && ListField(v, KVerificationCommands, VerificationCommandsInvalid) == Success(Strings(c.commands))
  {
    hide Schema, Strings, OpJsons, ChangesetId;
  }

  /**
   Reading back the written fields succeeds exactly when no binding is blank; the result then differs from
   the changeset at most in hashes that are never written, so its identity and id are the same.
   */
  lemma ChangeSetRoundTrip(k: Codecs, c: ChangeSet)
    requires Constructed(k, c)
    ensures BindingsNotBlank(k, c) ==> ReadChangeSet(k, Fields(k, c)) == Success(CanonicalSet(c))
    ensures !BindingsNotBlank(k, c) ==> ReadChangeSet(k, Fields(k, c)).Failure?
    ensures Identity(k, CanonicalSet(c)) == Identity(k, c) && ChangesetId(k, CanonicalSet(c)) == ChangesetId(k, c)
  {
    hide Blank, NormalPath, IsWorktree, SortedSet, NormalPaths, WellFormedOp, ReadOperations, OpJsons, Strings,
         Texts, CanonicalOps, Schema, ChangesetId, Sha256Hex, Fields, Identity, ListField;
    FieldValues(k, c);
    ListValues(k, c);
    SameIdentity(k, c);
    OperationsRoundTrip(k, c.operations);
    ConstructCanonical(k, c);
    TextsRoundTrip(k, c.allowedPaths, AllowedPathsInvalid);
    TextsRoundTrip(k, c.commands, VerificationCommandsInvalid);
  }
}
