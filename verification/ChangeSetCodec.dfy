/** The binary form of a changeset: a fixed header, the JSON metadata, and one framed record per operation. */
module ChangeSetCodec {
  import opened Bytes
  import opened ChangeSet
  import opened Json
  import opened Wrappers

  // ---------- Record frames ----------

  /** Length, payload, SHA-256 of the payload. */
  function Frame(k: Codecs, payload: Bytes): Bytes
    requires |payload| < MAX_U32
  {
    PackU32(|payload|) + payload + k.sha256(payload)
  }

  predicate Short(payloads: seq<Bytes>) {
    forall p | p in payloads :: |p| < MAX_U32
  }

  function Frames(k: Codecs, payloads: seq<Bytes>): Bytes
    requires Short(payloads)
  {
    if payloads == [] then []
    else
      assert forall p | p in payloads[1..] :: p in payloads;
      Frame(k, payloads[0]) + Frames(k, payloads[1..])
  }

  datatype Record = Record(payload: Bytes, size: nat)

  /** The record at the head of `rest`. */
  function HeadRecord(k: Codecs, rest: Bytes): (r: Result<Record, Error>)
    ensures r.Success? ==> r.value.size <= |rest|
  {
    if |rest| < 4 then Failure(RecordTruncated)
    else
      var end := 4 + UnpackU32(rest[..4]);
      if end + 32 > |rest| then Failure(RecordTruncated)
      else if k.sha256(rest[4..end]) != rest[end..end + 32] then Failure(RecordChecksumMismatch)
      else Success(Record(rest[4..end], end + 32))
  }

  /** The record at the head: its length in four bytes, that many bytes, and their SHA-256. */
  lemma HeadRecordMeans(k: Codecs, rest: Bytes, payload: Bytes, size: nat)
    ensures HeadRecord(k, rest) == Success(Record(payload, size))
            <==> && size == |payload| + 36 <= |rest| && UnpackU32(rest[..4]) == |payload|
                 && rest[4..4 + |payload|] == payload && rest[4 + |payload|..size] == k.sha256(payload)
    ensures HeadRecord(k, rest) == Failure(RecordTruncated)
            <==> |rest| < 4 || 4 + UnpackU32(rest[..4]) + 32 > |rest|
    ensures HeadRecord(k, rest).Success? || HeadRecord(k, rest).error in {RecordTruncated, RecordChecksumMismatch}
  {
    hide UnpackU32;
  }

  function ReadRecords(k: Codecs, section: Bytes, count: nat): Result<seq<Json>, Error>
    decreases count
  {
    if count == 0 then if section == [] then Success([]) else Failure(SectionLengthMismatch)
    else
      var record :- HeadRecord(k, section);
      var value := k.loads(record.payload);
      if value.None? then Failure(RecordInvalid)
      else
        var rest :- ReadRecords(k, section[record.size..], count - 1);
        Success([value.value] + rest)
  }

  /** The record loop of `decode_binary`, with its moving offset. */
  method DecodeRecords(k: Codecs, section: Bytes, count: nat) returns (result: Result<seq<Json>, Error>)
    ensures result == ReadRecords(k, section, count)
  {
    hide HeadRecord;
    var operations: seq<Json> := [];
    var offset: nat := 0;
    assert section[0..] == section;
    PrependTwice([], JNull, ReadRecords(k, section, count));
    for i := 0 to count
      invariant offset <= |section|
      invariant ReadRecords(k, section, count) == Prepend(operations, ReadRecords(k, section[offset..], count - i))
    {
      var rest := section[offset..];
      var record := HeadRecord(k, rest);
      if record.Failure? {
        return Failure(record.error);
      }
      var value := k.loads(record.value.payload);
      if value.None? {
        return Failure(RecordInvalid);
      }
      assert rest[record.value.size..] == section[offset + record.value.size..];
      PrependTwice(operations, value.value, ReadRecords(k, rest[record.value.size..], count - i - 1));
      operations := operations + [value.value];
      offset := offset + record.value.size;
    }
    assert |section[offset..]| == |section| - offset;
    if offset != |section| {
      return Failure(SectionLengthMismatch);
    }
    assert operations + [] == operations;
    result := Success(operations);
  }

  function Prepend(head: seq<Json>, tail: Result<seq<Json>, Error>): Result<seq<Json>, Error> {
    if tail.Failure? then tail else Success(head + tail.value)
  }

  lemma PrependTwice(head: seq<Json>, value: Json, tail: Result<seq<Json>, Error>)
    ensures Prepend(head, Prepend([value], tail)) == Prepend(head + [value], tail)
    ensures Prepend([], tail) == tail
  {
    if tail.Success? {
      assert head + ([value] + tail.value) == head + [value] + tail.value;
      assert [] + tail.value == tail.value;
    }
  }

  lemma HeadOfFrame(k: Codecs, payload: Bytes, rest: Bytes)
    requires |payload| < MAX_U32 && |k.sha256(payload)| == 32
    ensures HeadRecord(k, Frame(k, payload) + rest) == Success(Record(payload, |Frame(k, payload)|))
    ensures (Frame(k, payload) + rest)[|Frame(k, payload)|..] == rest
  {
    var all := Frame(k, payload) + rest;
    var end := 4 + |payload|;
    U32RoundTrip(|payload|);
    assert all[..4] == PackU32(|payload|);
    assert all[4..end] == payload;
    assert all[end..end + 32] == k.sha256(payload);
  }

  lemma FrameOfHead(k: Codecs, rest: Bytes)
    requires HeadRecord(k, rest).Success?
    ensures var r := HeadRecord(k, rest).value;
            |r.payload| < MAX_U32 && rest == Frame(k, r.payload) + rest[r.size..]
  {
    var r := HeadRecord(k, rest).value;
    U32Inverse(rest[..4]);
    assert rest == rest[..4] + rest[4..r.size - 32] + rest[r.size - 32..r.size] + rest[r.size..];
  }

  ghost predicate AllLoad(k: Codecs, payloads: seq<Bytes>, values: seq<Json>) {
    |payloads| == |values| && forall i | 0 <= i < |payloads| :: k.loads(payloads[i]) == Some(values[i])
  }

  /** Parsing what was framed gives it back. */
  lemma {:induction false} FramesParse(k: Codecs, payloads: seq<Bytes>, values: seq<Json>)
    requires Lawful(k) && Short(payloads) && AllLoad(k, payloads, values)
    ensures ReadRecords(k, Frames(k, payloads), |payloads|) == Success(values)
  {
    hide Frame, HeadRecord;
    if payloads != [] {
      assert forall p | p in payloads[1..] :: p in payloads;
      assert payloads[0] in payloads;
      FramesParse(k, payloads[1..], values[1..]);
      HeadOfFrame(k, payloads[0], Frames(k, payloads[1..]));
      assert values == [values[0]] + values[1..];
    }
  }

  /** Only framed payloads parse: the parser's input is the framing of the payloads it read. */
  lemma {:induction false} ParsedIsFrames(k: Codecs, section: Bytes, count: nat) returns (payloads: seq<Bytes>)
    requires ReadRecords(k, section, count).Success?
    ensures |payloads| == count && Short(payloads) && section == Frames(k, payloads)
    ensures AllLoad(k, payloads, ReadRecords(k, section, count).value)
    decreases count
  {
    hide HeadRecord, Frame;
    if count == 0 {
      payloads := [];
    } else {
      var r := HeadRecord(k, section).value;
      var rest := ParsedIsFrames(k, section[r.size..], count - 1);
      FrameOfHead(k, section);
      payloads := [r.payload] + rest;
      assert payloads[1..] == rest;
      var values := ReadRecords(k, section, count).value;
      assert values[1..] == ReadRecords(k, section[r.size..], count - 1).value;
      forall i | 0 <= i < count ensures k.loads(payloads[i]) == Some(values[i]) {
        if i > 0 {
          assert payloads[i] == rest[i - 1] && values[i] == values[1..][i - 1];
        }
      }
    }
  }

  // ---------- The file ----------

  const HEADER_SIZE := 54

  function Magic(): (m: Bytes)
    ensures |m| == 8
  {
    [0x53, 0x46, 0x42, 0x43, 0x48, 0x47, 0x30, 0x31]
  }

  function Header(metadata: nat, count: nat, section: nat, digest: Bytes): Bytes
    requires metadata < MAX_U32 && count < MAX_U32 && section < MAX_U32
  {
    Magic() + [1, 0] + PackU32(metadata) + PackU32(count) + PackU32(section) + digest
  }

  function OpPayloads(k: Codecs, ops: seq<ChangeOperation>): (r: seq<Bytes>)
    ensures |r| == |ops|
    ensures forall i {:trigger r[i]} | 0 <= i < |ops| :: r[i] == k.dumps(OpJson(k, ops[i]))
  {
    if ops == [] then [] else [k.dumps(OpJson(k, ops[0]))] + OpPayloads(k, ops[1..])
  }

  /** `encode`; lengths that do not fit their fields are refused by the packer. */
  function Encode(k: Codecs, c: ChangeSet): Result<Bytes, Error> {
    var metadata := k.dumps(JObject(Fields(k, c)));
    var payloads := OpPayloads(k, c.operations);
    if !Short(payloads) then Failure(StructError)
    else
      var records := Frames(k, payloads);
      if |metadata| >= MAX_U32 || |payloads| >= MAX_U32 || |records| >= MAX_U32 then Failure(StructError)
      else Success(Header(|metadata|, |payloads|, |records|, k.sha256(metadata + records)) + metadata + records)
  }

  /** How many bytes the records of the operations take. */
  function RecordBytes(k: Codecs, ops: seq<ChangeOperation>): nat {
    if ops == [] then 0 else |k.dumps(OpJson(k, ops[0]))| + 36 + RecordBytes(k, ops[1..])
  }

  lemma {:induction false} FramesSize(k: Codecs, ops: seq<ChangeOperation>)
    requires Lawful(k) && Short(OpPayloads(k, ops))
    ensures |Frames(k, OpPayloads(k, ops))| == RecordBytes(k, ops)
  {
    hide OpJson;
    if ops != [] {
      var payloads := OpPayloads(k, ops);
      assert forall p | p in payloads[1..] :: p in payloads;
      assert payloads[1..] == OpPayloads(k, ops[1..]);
      assert payloads[0] in payloads;
      FramesSize(k, ops[1..]);
    }
  }

  /** A changeset is written exactly when its metadata, each operation, their number and all records fit 32 bits. */
  lemma EncodeIff(k: Codecs, c: ChangeSet)
    requires Lawful(k)
    ensures Encode(k, c).Success?
            <==> && |k.dumps(JObject(Fields(k, c)))| < 4294967296 && |c.operations| < 4294967296
                 && (forall o | o in c.operations :: |k.dumps(OpJson(k, o))| < 4294967296)
                 && RecordBytes(k, c.operations) < 4294967296
    ensures Encode(k, c).Success? || Encode(k, c) == Failure(StructError)
  {
    hide OpJson, Fields, Frames, RecordBytes, Lawful, Header;
    var payloads := OpPayloads(k, c.operations);
    assert forall i | 0 <= i < |payloads| :: payloads[i] in payloads && c.operations[i] in c.operations;
    if Short(payloads) {
      FramesSize(k, c.operations);
    }
  }

  /** The length that a header announces. */
  function AnnouncedSize(payload: Bytes): nat
    requires |payload| >= HEADER_SIZE
  {
    HEADER_SIZE + UnpackU32(payload[10..14]) + UnpackU32(payload[18..22])
  }

  /** The metadata and record bytes of a file whose header, lengths and checksum are right. */
  function Sections(k: Codecs, payload: Bytes): Result<(Bytes, Bytes), Error> {
    if |payload| < HEADER_SIZE then Failure(BinaryTruncated)
    else if payload[..8] != Magic() || payload[8] != 1 || payload[9] != 0 then Failure(BinaryHeaderInvalid)
    else if AnnouncedSize(payload) != |payload| then Failure(BinaryLengthMismatch)
    else
      var end := HEADER_SIZE + UnpackU32(payload[10..14]);
      var metadata, section := payload[HEADER_SIZE..end], payload[end..];
      if k.sha256(metadata + section) != payload[22..54] then Failure(BinaryChecksumMismatch)
      else Success((metadata, section))
  }

  /** `decode_binary`. */
  function DecodeBinary(k: Codecs, payload: Bytes): Result<ChangeSet, Error> {
    var parts :- Sections(k, payload);
    var value := k.loads(parts.0);
    if value.None? then Failure(MetadataInvalid)
    else
      var operations :- ReadRecords(k, parts.1, UnpackU32(payload[14..18]));
      if !value.value.JObject? then Failure(TypeError)
      else ReadChangeSet(k, value.value.fields[KOperations := JArray(operations)])
  }

  method Decode(k: Codecs, payload: Bytes) returns (result: Result<ChangeSet, Error>)
    ensures result == DecodeBinary(k, payload)
  {
    var parts := Sections(k, payload);
    if parts.Failure? {
      return Failure(parts.error);
    }
    var value := k.loads(parts.value.0);
    if value.None? {
      return Failure(MetadataInvalid);
    }
    var operations := DecodeRecords(k, parts.value.1, UnpackU32(payload[14..18]));
    if operations.Failure? {
      return Failure(operations.error);
    }
    if !value.value.JObject? {
      return Failure(TypeError);
    }
    result := ReadChangeSet(k, value.value.fields[KOperations := JArray(operations.value)]);
  }

  /**
   Which files have sections, and which: exactly those of magic, version 1 and a zero, the two lengths and the count,
   and the SHA-256 of all that follows, which is as long as the two lengths say.
   */
  lemma SectionsIff(k: Codecs, payload: Bytes, metadata: Bytes, records: Bytes)
    ensures Sections(k, payload) == Success((metadata, records))
            <==> && |payload| == 54 + |metadata| + |records|
                 && payload[..10] == [0x53, 0x46, 0x42, 0x43, 0x48, 0x47, 0x30, 0x31, 1, 0]
                 && UnpackU32(payload[10..14]) == |metadata| && UnpackU32(payload[18..22]) == |records|
                 && payload[22..54] == k.sha256(payload[54..])
                 && payload[54..] == metadata + records
  {
    hide UnpackU32;
    if |payload| >= 54 {
      assert payload[..10] == payload[..8] + [payload[8], payload[9]];
      var end := 54 + UnpackU32(payload[10..14]);
      if AnnouncedSize(payload) == |payload| {
        assert payload[54..] == payload[54..end] + payload[end..];
        assert |payload[54..end]| == UnpackU32(payload[10..14]);
        if |metadata| == end - 54 && payload[54..] == metadata + records {
          assert payload[54..end] == metadata && payload[end..] == records;
        }
      }
    }
  }

  /** Which error the other files raise, in the order of the checks. */
  lemma SectionsFail(k: Codecs, payload: Bytes)
    ensures var result := Sections(k, payload);
            && (|payload| < 54 <==> result == Failure(BinaryTruncated))
            && (|payload| >= 54 && payload[..10] != [0x53, 0x46, 0x42, 0x43, 0x48, 0x47, 0x30, 0x31, 1, 0]
                <==> result == Failure(BinaryHeaderInvalid))
            && (result == Failure(BinaryLengthMismatch) ==>
                  |payload| != 54 + UnpackU32(payload[10..14]) + UnpackU32(payload[18..22]))
            && (result == Failure(BinaryChecksumMismatch) ==> payload[22..54] != k.sha256(payload[54..]))
            && (result.Failure? ==>
                  result.error in {BinaryTruncated, BinaryHeaderInvalid, BinaryLengthMismatch, BinaryChecksumMismatch})
            && (|payload| >= 54 && payload[..10] == [0x53, 0x46, 0x42, 0x43, 0x48, 0x47, 0x30, 0x31, 1, 0]
                && |payload| != 54 + UnpackU32(payload[10..14]) + UnpackU32(payload[18..22]) ==>
                  result == Failure(BinaryLengthMismatch))
  {
    hide UnpackU32;
    if |payload| >= 54 {
      assert payload[..10] == payload[..8] + [payload[8], payload[9]];
      if AnnouncedSize(payload) == |payload| {
        var end := 54 + UnpackU32(payload[10..14]);
        assert payload[54..] == payload[54..end] + payload[end..];
      }
    }
  }

  /** The first 54 bytes bind the rest: two files with sections and one header are equal, or their bodies collide. */
  lemma HeaderBinds(k: Codecs, a: Bytes, b: Bytes)
    requires Sections(k, a).Success? && Sections(k, b).Success? && |a| >= 54 && |b| >= 54 && a[..54] == b[..54]
    ensures a == b || (a[54..] != b[54..] && k.sha256(a[54..]) == k.sha256(b[54..]))
  {
    hide Sections;
    SectionsIff(k, a, Sections(k, a).value.0, Sections(k, a).value.1);
    SectionsIff(k, b, Sections(k, b).value.0, Sections(k, b).value.1);
    assert a[22..54] == a[..54][22..54] && b[22..54] == b[..54][22..54];
    assert a == a[..54] + a[54..] && b == b[..54] + b[54..];
  }

  /** When records, metadata and fields are at fault, given the sections. */
  lemma DecodeMeans(k: Codecs, payload: Bytes, metadata: Bytes, section: Bytes)
    requires |payload| >= HEADER_SIZE && Sections(k, payload) == Success((metadata, section))
    ensures var result, value := DecodeBinary(k, payload), k.loads(metadata);
            var operations := ReadRecords(k, section, UnpackU32(payload[14..18]));
            && (value == None ==> result == Failure(MetadataInvalid))
            && (value != None && operations.Failure? ==> result == Failure(operations.error))
            && (value != None && operations.Success? ==>
                  result == if value.value.JObject?
                            then ReadChangeSet(k, value.value.fields[KOperations := JArray(operations.value)])
                            else Failure(TypeError))
    ensures ReadRecords(k, section, 0) == if |section| == 0 then Success([]) else Failure(SectionLengthMismatch)
    ensures forall record, size | HeadRecord(k, section) == Success(Record(record, size)) && k.loads(record) == None ::
              ReadRecords(k, section, 1) == Failure(RecordInvalid)
  {
    hide HeadRecord, UnpackU32, Sections, ReadChangeSet;
  }

  lemma HeaderFields(metadata: nat, count: nat, section: nat, digest: Bytes, rest: Bytes)
    requires metadata < MAX_U32 && count < MAX_U32 && section < MAX_U32 && |digest| == 32
    ensures var all := Header(metadata, count, section, digest) + rest;
            && |Header(metadata, count, section, digest)| == HEADER_SIZE <= |all|
            && all[..8] == Magic() && all[8] == 1 && all[9] == 0
            && UnpackU32(all[10..14]) == metadata && UnpackU32(all[14..18]) == count
            && UnpackU32(all[18..22]) == section && all[22..54] == digest && all[54..] == rest
  {
    hide Magic, PackU32, UnpackU32;
    var all := Header(metadata, count, section, digest) + rest;
    assert all[10..14] == PackU32(metadata) && all[14..18] == PackU32(count) && all[18..22] == PackU32(section);
    U32RoundTrip(metadata);
    U32RoundTrip(count);
    U32RoundTrip(section);
  }

  lemma EncodedSections(k: Codecs, c: ChangeSet)
    requires Lawful(k) && Encode(k, c).Success?
    ensures var b, payloads := Encode(k, c).value, OpPayloads(k, c.operations);
            && Short(payloads)
            && Sections(k, b) == Success((k.dumps(JObject(Fields(k, c))), Frames(k, payloads)))
            && UnpackU32(b[14..18]) == |payloads|
  {
    hide Fields, Frames, Header, OpPayloads, Short;
    var metadata := k.dumps(JObject(Fields(k, c)));
    var payloads := OpPayloads(k, c.operations);
    var records := Frames(k, payloads);
    var digest := k.sha256(metadata + records);
    var header := Header(|metadata|, |payloads|, |records|, digest);
    var b := header + (metadata + records);
    assert header + metadata + records == b;
    HeaderFields(|metadata|, |payloads|, |records|, digest, metadata + records);
    var end := HEADER_SIZE + |metadata|;
    assert b[HEADER_SIZE..end] == metadata && b[end..] == records;
  }

  /**
   Decoding an encoding: it succeeds exactly when no binding is blank, and then gives the changeset back with
   the same identity and id.
   */
  lemma EncodeDecode(k: Codecs, c: ChangeSet)
    requires Lawful(k) && Constructed(k, c) && Encode(k, c).Success?
    ensures var r := DecodeBinary(k, Encode(k, c).value);
            && (BindingsNotBlank(k, c) ==> r == Success(CanonicalSet(c)) && Identity(k, r.value) == Identity(k, c)
                                           && ChangesetId(k, r.value) == ChangesetId(k, c))
            && (!BindingsNotBlank(k, c) ==> r.Failure?)
  {
    hide Sections, Frames, ReadRecords, OpPayloads, Constructed, ReadChangeSet, BindingsNotBlank, Encode, ChangesetId,
         Identity, OpFields, Short;
    EncodedSections(k, c);
    var payloads, values := OpPayloads(k, c.operations), OpJsons(k, c.operations);
    forall i | 0 <= i < |payloads| ensures k.loads(payloads[i]) == Some(values[i]) {
      assert values[i] == OpJson(k, c.operations[i]);
    }
    FramesParse(k, payloads, values);
    ChangeSetRoundTrip(k, c);
    OperationsField(k, c);
  }

  /** A binding that only decoding refuses: the constructor takes blank text, and the encoding does not decode. */
  lemma BlankBinding(k: Codecs, c: ChangeSet, blank: string)
    requires Lawful(k) && Constructed(k, c) && blank != "" && Blank(k, blank)
    ensures var d := c.(repository := blank);
            Constructed(k, d) && (Encode(k, d).Success? ==> DecodeBinary(k, Encode(k, d).value).Failure?)
  {
    hide Lawful, Encode, DecodeBinary, WellFormedOp, Blank, NormalPaths, IsWorktree;
    var d := c.(repository := blank);
    assert Constructed(k, d) && !BindingsNotBlank(k, d);
    if Encode(k, d).Success? {
      EncodeDecode(k, d);
    }
  }

  lemma OperationsField(k: Codecs, c: ChangeSet)
    ensures Fields(k, c)[KOperations := JArray(OpJsons(k, c.operations))] == Fields(k, c)
  {
    hide OpJsons, Strings, Schema, ChangesetId;
  }

  lemma SectionsSize(k: Codecs, a: Bytes)
    requires Sections(k, a).Success?
    ensures |a| >= HEADER_SIZE && |a| == AnnouncedSize(a)
  {
    hide UnpackU32, Magic, AnnouncedSize;
  }

  lemma AnnouncedByHeader(a: Bytes, b: Bytes)
    requires |a| >= HEADER_SIZE && |b| >= HEADER_SIZE && a[..HEADER_SIZE] == b[..HEADER_SIZE]
    ensures AnnouncedSize(a) == AnnouncedSize(b)
  {
    hide UnpackU32;
    assert a[10..14] == a[..HEADER_SIZE][10..14] && b[10..14] == b[..HEADER_SIZE][10..14];
    assert a[18..22] == a[..HEADER_SIZE][18..22] && b[18..22] == b[..HEADER_SIZE][18..22];
  }

  /** Two files with well-formed sections and the same header bytes have the same length. */
  lemma SameHeaderSameSize(k: Codecs, a: Bytes, b: Bytes)
    requires Sections(k, a).Success? && Sections(k, b).Success?
    requires |a| >= HEADER_SIZE && |b| >= HEADER_SIZE && a[..HEADER_SIZE] == b[..HEADER_SIZE]
    ensures |a| == |b|
  {
    hide *;
    SectionsSize(k, a);
    SectionsSize(k, b);
    AnnouncedByHeader(a, b);
  }

  lemma DecodedSections(k: Codecs, payload: Bytes)
    requires DecodeBinary(k, payload).Success?
    ensures Sections(k, payload).Success? && |payload| >= HEADER_SIZE
  {
    hide ReadRecords, ReadChangeSet;
  }

  /** Among accepted files none is a proper prefix of another: no truncation or extension of one is accepted. */
  lemma AcceptedIsPrefixFree(k: Codecs, a: Bytes, b: Bytes)
    requires DecodeBinary(k, a).Success? && DecodeBinary(k, a + b).Success?
    ensures b == []
  {
    hide DecodeBinary, Sections;
    DecodedSections(k, a);
    DecodedSections(k, a + b);
    assert (a + b)[..HEADER_SIZE] == a[..HEADER_SIZE];
    SameHeaderSameSize(k, a, a + b);
  }

  /** A file that shares its header with one of another length, whose sections are well-formed, is refused. */
  lemma OtherLengthIsRefused(k: Codecs, b: Bytes, d: Bytes)
    requires Sections(k, b).Success? && |b| >= HEADER_SIZE && |d| != |b|
    requires |d| >= HEADER_SIZE ==> d[..HEADER_SIZE] == b[..HEADER_SIZE]
    ensures DecodeBinary(k, d).Failure?
  {
    hide DecodeBinary, Sections;
    if DecodeBinary(k, d).Success? {
      DecodedSections(k, d);
      SameHeaderSameSize(k, d, b);
    }
  }

  /** In particular no strict prefix and no strict extension of an encoding decodes, even if the encoding does not. */
  lemma EncodingIsExact(k: Codecs, c: ChangeSet, n: nat, extra: Bytes)
    requires Lawful(k) && Encode(k, c).Success? && n < |Encode(k, c).value| && extra != []
    ensures DecodeBinary(k, Encode(k, c).value[..n]).Failure?
    ensures DecodeBinary(k, Encode(k, c).value + extra).Failure?
  {
    hide DecodeBinary, Sections, Encode, Lawful;
    var b := Encode(k, c).value;
    EncodedSections(k, c);
    EncodedLength(k, c);
    assert n >= HEADER_SIZE ==> b[..n][..HEADER_SIZE] == b[..HEADER_SIZE];
    OtherLengthIsRefused(k, b, b[..n]);
    assert (b + extra)[..HEADER_SIZE] == b[..HEADER_SIZE];
    OtherLengthIsRefused(k, b, b + extra);
  }

  lemma EncodedLength(k: Codecs, c: ChangeSet)
    requires Lawful(k) && Encode(k, c).Success?
    ensures |Encode(k, c).value| >= HEADER_SIZE
  {
    hide Fields, Frames, OpPayloads, Short, Magic, PackU32;
  }
}
