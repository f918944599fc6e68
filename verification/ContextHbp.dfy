/** Context view requests and results as sealed HBP rows: fields of text around a base64 payload. */
module ContextHbp {
  import opened HbpCodec
  import opened Json
  import opened Wrappers

  datatype RowError = Tampered | SchemaInvalid | PayloadInvalid

  datatype Kind = Request | Result

  /** The digest, canonical JSON in UTF-8, and url-safe base64. */
  datatype Coding = Coding(sha: Hash, dumps: Json -> seq<char>, loads: seq<char> -> Option<Json>,
                           b64: seq<char> -> string, unb64: string -> Option<seq<char>>)

  ghost predicate Lawful(k: Coding) {
    && HexHash(k.sha)
    && (forall v :: k.loads(k.dumps(v)) == Some(v))
    && (forall x :: k.unb64(k.b64(x)) == Some(x))
    && (forall x :: '|' !in k.b64(x) && !HasLineBreak(k.b64(x)))
  }

  // ---------- Fields ----------

  /** Text that can stand in a field, in front of its `=` when it is a name. */
  predicate Plain(s: string) {
    '|' !in s && !HasLineBreak(s)
  }

  function Schema(): (s: string)
    ensures Plain(s)
  {
    "simplicio.fast.context-view-hbp/v1"
  }

  function KindName(kind: Kind): (s: string)
    ensures Plain(s)
  {
    match kind
    case Request => "request"
    case Result => "result"
  }

  lemma KindNamesDiffer()
    ensures KindName(Request) != KindName(Result)
  {
    assert |KindName(Request)| == 7 && |KindName(Result)| == 6;
  }

  function SchemaField(): (s: string)
    ensures Plain(s) && '=' !in s && |s| == 6
  {
    "schema"
  }

  function KindField(): (s: string)
    ensures Plain(s) && '=' !in s && |s| == 4
  {
    "kind"
  }

  function PayloadField(): (s: string)
    ensures Plain(s) && '=' !in s && |s| == 7
  {
    "payload"
  }

  function Field(name: string, value: string): string {
    name + ['='] + value
  }

  /** `s.split("|")`. */
  function Split(s: string): (parts: seq<string>)
    ensures parts != []
  {
    if s == "" then [""]
    else
      var rest := Split(s[1..]);
      if s[0] == '|' then [""] + rest else [[s[0]] + rest[0]] + rest[1..]
  }

  lemma {:induction false} SplitPlain(s: string)
    requires '|' !in s
    ensures Split(s) == [s]
  {
    if s != "" {
      SplitPlain(s[1..]);
      assert [s[0]] + s[1..] == s;
    }
  }

  lemma {:induction false} SplitAtBar(a: string, b: string)
    requires '|' !in a
    ensures Split(a + ['|'] + b) == [a] + Split(b)
  {
    var s := a + ['|'] + b;
    if a == "" {
      assert s[1..] == b;
    } else {
      SplitAtBar(a[1..], b);
      assert s[1..] == a[1..] + ['|'] + b;
      assert [a[0]] + a[1..] == a;
    }
  }

  /** `part.split("=", 1)`; None when there is no `=`. */
  function Cut(part: string): Option<(string, string)> {
    if part == "" then None
    else if part[0] == '=' then Some(("", part[1..]))
    else
      var rest := Cut(part[1..]);
      if rest.None? then None else Some(([part[0]] + rest.value.0, rest.value.1))
  }

  lemma {:induction false} CutField(name: string, value: string)
    requires '=' !in name
    ensures Cut(Field(name, value)) == Some((name, value))
  {
    var part := Field(name, value);
    if name == "" {
      assert part[1..] == value;
    } else {
      CutField(name[1..], value);
      assert part[1..] == Field(name[1..], value);
      assert [name[0]] + name[1..] == name;
    }
  }

  /** `dict(...)` of the fields; a later field overrides an earlier one. */
  function FieldMap(parts: seq<string>): Option<map<string, string>> {
    if parts == [] then Some(map[])
    else
      var before, cut := FieldMap(parts[..|parts| - 1]), Cut(parts[|parts| - 1]);
      if before.None? || cut.None? then None else Some(before.value[cut.value.0 := cut.value.1])
  }

  // ---------- Rows ----------

  function RowText(kind: Kind, payload: string): string {
    Field(SchemaField(), Schema()) + ['|']
    + (Field(KindField(), KindName(kind)) + ['|'] + Field(PayloadField(), payload))
  }

  /** `encode_hbp`; the row is sealed as the first of a chain. */
  function EncodeRow(k: Coding, kind: Kind, value: map<Name, Json>): Result<string, HbpError> {
    SealReceipt(k.sha, RowText(kind, k.b64(k.dumps(JObject(value)))), Genesis())
  }

  /** The text of a verified row. */
  function TextOf(row: string): string {
    var outer := RSplit(row, EventMark());
    var body := if outer.None? then row else outer.value.0;
    var inner := RSplit(body, PrevMark());
    if inner.None? then body else inner.value.0
  }

  /** `decode_hbp`. */
  function DecodeRow(k: Coding, row: string, expected: Kind): Result<map<Name, Json>, RowError> {
    if Verify(k.sha, [row]).Failure? then Failure(Tampered)
    else
      var fields := FieldMap(Split(TextOf(row)));
      if fields.None? then Failure(Tampered) else DecodeFields(k, fields.value, expected)
  }

  function DecodeFields(k: Coding, fields: map<string, string>, expected: Kind): Result<map<Name, Json>, RowError> {
    if SchemaField() !in fields || fields[SchemaField()] != Schema()
       || KindField() !in fields || fields[KindField()] != KindName(expected) then Failure(SchemaInvalid)
    else if PayloadField() !in fields then Failure(Tampered)
    else
      var bytes := k.unb64(fields[PayloadField()]);
      if bytes.None? then Failure(Tampered)
      else
        var value := k.loads(bytes.value);
        if value.None? then Failure(Tampered)
        else if !value.value.JObject? then Failure(PayloadInvalid)
        else Success(value.value.fields)
  }

  /** How fields are refused: another schema or kind, a payload that is no object, and everything else as tampered. */
  lemma FieldsRefused(k: Coding, fields: map<string, string>, expected: Kind)
    ensures var result := DecodeFields(k, fields, expected);
            var named := SchemaField() in fields && fields[SchemaField()] == Schema()
                         && KindField() in fields && fields[KindField()] == KindName(expected);
            var bytes := if PayloadField() in fields then k.unb64(fields[PayloadField()]) else None;
            var value := if bytes.Some? then k.loads(bytes.value) else None;
            && (result == Failure(SchemaInvalid) <==> !named)
            && (result == Failure(PayloadInvalid) <==> named && value.Some? && !value.value.JObject?)
            && (result == Failure(Tampered) <==> named && value == None)
            && (result.Success? ==> value == Some(JObject(result.value)))
  {
    hide SchemaField, Schema, KindField, KindName, PayloadField;
  }

  lemma FieldsOfText(kind: Kind, payload: string)
    requires '|' !in payload
    ensures FieldMap(Split(RowText(kind, payload)))
            == Some(map[SchemaField() := Schema(), KindField() := KindName(kind), PayloadField() := payload])
  {
    hide Schema, KindName, SchemaField, KindField, PayloadField;
    var a, b, c := Field(SchemaField(), Schema()), Field(KindField(), KindName(kind)), Field(PayloadField(), payload);
    assert '|' !in a && '|' !in b && '|' !in c;
    SplitAtBar(a, b + ['|'] + c);
    SplitAtBar(b, c);
    SplitPlain(c);
    CutField(SchemaField(), Schema());
    CutField(KindField(), KindName(kind));
    CutField(PayloadField(), payload);
    assert [a] + ([b] + [c]) == [] + [a] + [b] + [c];
    FieldMapSnoc([], a);
    FieldMapSnoc([] + [a], b);
    FieldMapSnoc([] + [a] + [b], c);
  }

  lemma FieldMapSnoc(parts: seq<string>, part: string)
    ensures FieldMap([]) == Some(map[])
    ensures var before, cut := FieldMap(parts), Cut(part);
            FieldMap(parts + [part])
            == if before.None? || cut.None? then None else Some(before.value[cut.value.0 := cut.value.1])
  {
    assert (parts + [part])[..|parts|] == parts;
  }

  lemma TextBack(k: Coding, text: string)
    requires HexHash(k.sha)
    ensures Verify(k.sha, [Link(k.sha, text, Genesis())]).Success?
    ensures TextOf(Link(k.sha, text, Genesis())) == text
  {
    hide Verify, PrevMark, EventMark, RSplit, Genesis;
    var body := BodyOf(text, Genesis());
    var row := Link(k.sha, text, Genesis());
    assert IsHex64(k.sha(body)) && IsHex64(Genesis());
    RSplitJoin(body, EventMark(), k.sha(body));
    RSplitJoin(text, PrevMark(), Genesis());
    SealedVerifies(k.sha, [text]);
    OneRow(k, text);
  }

  lemma OneRow(k: Coding, text: string)
    ensures Rows(k.sha, [text]) == [Link(k.sha, text, Genesis())]
  {
    assert [text][..0] == [];
  }

  lemma RowTextHasNoBreak(kind: Kind, payload: string)
    requires !HasLineBreak(payload)
    ensures !HasLineBreak(RowText(kind, payload))
  {
    hide Schema, KindName, SchemaField, KindField, PayloadField;
  }

  /** Encoding always succeeds, and the row decodes to its payload under its own kind and under no other. */
  lemma RowRoundTrip(k: Coding, kind: Kind, other: Kind, value: map<Name, Json>)
    requires Lawful(k)
    ensures var row := EncodeRow(k, kind, value);
            && row.Success?
            && DecodeRow(k, row.value, kind) == Success(value)
            && (other != kind ==> DecodeRow(k, row.value, other) == Failure(SchemaInvalid))
  {
    hide RowText, Verify, TextOf, Link, FieldMap, Split, Genesis, Schema, KindName, SchemaField, KindField,
         PayloadField;
    var payload := k.b64(k.dumps(JObject(value)));
    RowTextHasNoBreak(kind, payload);
    TextBack(k, RowText(kind, payload));
    FieldsOfText(kind, payload);
    KindNamesDiffer();
  }

  /** What decodes was sealed: the row is exactly the seal of the text its fields were read from. */
  lemma DecodedIsSealed(k: Coding, row: string, kind: Kind)
    requires Lawful(k) && DecodeRow(k, row, kind).Success?
    ensures row == Link(k.sha, TextOf(row), Genesis())
  {
    hide DecodeFields, FieldMap, Split, Genesis, PrevMark, EventMark, Verify;
    var texts := VerifiedIsSealed(k.sha, [row]);
    assert |texts| == 1 && texts == [texts[0]];
    OneRow(k, texts[0]);
    TextBack(k, texts[0]);
  }
}
