/** The catalog's binary record stream: a fixed header, then one record per entry in order of handle. */
module CatalogCodec {
  import opened Bytes
  import opened Catalog
  import opened Ordering
  import opened Wrappers

  function Magic(): (m: Bytes)
    ensures |m| == 8
  {
    [0x53, 0x46, 0x41, 0x43, 0x41, 0x54, 0x30, 0x31]
  }

  const HEADER_SIZE := 16
  const TEXTS := 7

  // ---------- Texts with their lengths in front ----------

  /** Namespace and segment are UTF-8, the other texts ASCII. */
  function EncodeText(k: Codec, i: nat, s: string): Bytes {
    if i == 0 || i == 3 then k.utf8(s) else k.ascii(s)
  }

  function DecodeText(k: Codec, i: nat, b: Bytes): Option<string> {
    if i == 0 || i == 3 then k.unUtf8(b) else k.unAscii(b)
  }

  predicate Short(k: Codec, texts: seq<string>) {
    forall i | 0 <= i < |texts| :: |EncodeText(k, i, texts[i])| < MAX_U16
  }

  /** The lengths of the texts from the i-th on. */
  function PackLengths(k: Codec, texts: seq<string>, i: nat): (b: Bytes)
    requires i <= |texts| && Short(k, texts)
    ensures |b| == 2 * (|texts| - i)
    decreases |texts| - i
  {
    if i == |texts| then [] else PackU16(|EncodeText(k, i, texts[i])|) + PackLengths(k, texts, i + 1)
  }

  function PackTexts(k: Codec, texts: seq<string>, i: nat): Bytes
    requires i <= |texts|
    decreases |texts| - i
  {
    if i == |texts| then [] else EncodeText(k, i, texts[i]) + PackTexts(k, texts, i + 1)
  }

  function LengthAt(data: Bytes, i: nat): (n: nat)
    requires 2 * i + 2 <= |data|
    ensures n < MAX_U16
  {
    UnpackU16(data[2 * i..2 * i + 2])
  }

  /** The texts from the i-th on; `head` holds the lengths. */
  function ReadTexts(k: Codec, head: Bytes, data: Bytes, i: nat): Result<(seq<string>, Bytes), CatalogError>
    requires |head| == 2 * TEXTS && i <= TEXTS
    decreases TEXTS - i
  {
    if i == TEXTS then Success(([], data))
    else
      var n := LengthAt(head, i);
      if n > |data| then Failure(Truncated)
      else
        var text := DecodeText(k, i, data[..n]);
        if text.None? then Failure(TextInvalid)
        else
          var rest :- ReadTexts(k, head, data[n..], i + 1);
          Success(([text.value] + rest.0, rest.1))
  }

  lemma {:induction false} LengthAtPacked(k: Codec, texts: seq<string>, from: nat, i: nat)
    requires from <= i < |texts| && Short(k, texts)
    ensures LengthAt(PackLengths(k, texts, from), i - from) == |EncodeText(k, i, texts[i])|
    decreases i - from
  {
    hide EncodeText;
    var n := |EncodeText(k, from, texts[from])|;
    var all := PackLengths(k, texts, from);
    if i == from {
      U16RoundTrip(n, [0, 0]);
      assert all[0..2] == PackU16(n);
    } else {
      LengthAtPacked(k, texts, from + 1, i);
      var rest := PackLengths(k, texts, from + 1);
      assert all[2 * (i - from)..2 * (i - from) + 2] == rest[2 * (i - from - 1)..2 * (i - from - 1) + 2];
    }
  }

  /** The texts that are written as ASCII are ASCII. */
  predicate AsciiTexts(texts: seq<string>) {
    forall i | 0 <= i < |texts| && i != 0 && i != 3 :: IsAscii(texts[i])
  }

  lemma AsciiAt(texts: seq<string>, i: nat)
    requires AsciiTexts(texts) && i < |texts|
    ensures i == 0 || i == 3 || IsAscii(texts[i])
  {
    hide IsAscii;
  }

  lemma TextBack(k: Codec, i: nat, s: string)
    requires Lawful(k) && (i == 0 || i == 3 || IsAscii(s))
    ensures DecodeText(k, i, EncodeText(k, i, s)) == Some(s)
  {
  }

  lemma {:induction false} TextsBack(k: Codec, texts: seq<string>, i: nat, more: Bytes)
    requires Lawful(k) && |texts| == TEXTS && i <= TEXTS && Short(k, texts) && AsciiTexts(texts)
    ensures ReadTexts(k, PackLengths(k, texts, 0), PackTexts(k, texts, i) + more, i) == Success((texts[i..], more))
    decreases TEXTS - i
  {
    hide *;
    if i == TEXTS {
      NoTextsLeft(k, texts, more);
    } else {
      AsciiAt(texts, i);
      TextBack(k, i, texts[i]);
      LengthAtPacked(k, texts, 0, i);
      TextsBack(k, texts, i + 1, more);
      TextsBackStep(k, PackLengths(k, texts, 0), texts, i, more);
    }
  }

  lemma NoTextsLeft(k: Codec, texts: seq<string>, more: Bytes)
    requires |texts| == TEXTS && Short(k, texts)
    ensures ReadTexts(k, PackLengths(k, texts, 0), PackTexts(k, texts, TEXTS) + more, TEXTS)
            == Success((texts[TEXTS..], more))
  {
    assert PackTexts(k, texts, TEXTS) + more == more && texts[TEXTS..] == [];
  }

  lemma TextsBackStep(k: Codec, head: Bytes, texts: seq<string>, i: nat, more: Bytes)
    requires |head| == 2 * TEXTS && |texts| == TEXTS && i < TEXTS
    requires LengthAt(head, i) == |EncodeText(k, i, texts[i])|
    requires DecodeText(k, i, EncodeText(k, i, texts[i])) == Some(texts[i])
    requires ReadTexts(k, head, PackTexts(k, texts, i + 1) + more, i + 1) == Success((texts[i + 1..], more))
    ensures ReadTexts(k, head, PackTexts(k, texts, i) + more, i) == Success((texts[i..], more))
  {
    hide EncodeText, DecodeText, LengthAt;
    var b, rest := EncodeText(k, i, texts[i]), PackTexts(k, texts, i + 1) + more;
    assert PackTexts(k, texts, i) + more == b + rest;
    assert (b + rest)[..|b|] == b && (b + rest)[|b|..] == rest;
    assert texts[i..] == [texts[i]] + texts[i + 1..];
  }

  // ---------- Records ----------

  /** A record as it was read. */
  datatype Raw = Raw(texts: seq<string>, payload: Bytes)

  function TextsOf(e: Entry): (texts: seq<string>)
    ensures |texts| == TEXTS
  {
    [e.namespace, e.canonicalId, e.handle, e.segment, e.payloadSha, e.sourceSha, e.state]
  }

  predicate Fits(k: Codec, e: Entry) {
    Short(k, TextsOf(e)) && |e.payload| < MAX_U32
  }

  function RecordOf(k: Codec, e: Entry): (b: Bytes)
    requires Fits(k, e)
  {
    PackLengths(k, TextsOf(e), 0) + PackU32(|e.payload|) + PackTexts(k, TextsOf(e), 0) + e.payload
  }

  function ReadRecord(k: Codec, data: Bytes): (r: Result<(Raw, Bytes), CatalogError>)
  {
    if |data| < 18 then Failure(Truncated)
    else
      var texts :- ReadTexts(k, data[..14], data[18..], 0);
      var size := UnpackU32(data[14..18]);
      if size > |texts.1| then Failure(Truncated)
      else Success((Raw(texts.0, texts.1[..size]), texts.1[size..]))
  }

  /** Ids, handles, digests and states are ASCII. */
  lemma EntryIsAscii(k: Codec, cat: Catalog, e: Entry)
    requires Lawful(k) && EntryOk(k, cat, e)
    ensures AsciiTexts(TextsOf(e))
  {
    hide IsAscii, IsSha, IsNamespace, IsState;
    ShaIsAscii(e.canonicalId);
    ShaIsAscii(e.sourceSha);
    ShaIsAscii(k.sha(e.payload));
    StateIsAscii(e.state);
    assert IsAscii(k.handle(cat.repository, cat.generation, e.namespace, e.canonicalId));
  }

  lemma ShaIsAscii(s: string)
    ensures IsSha(s) ==> IsAscii(s)
  {
  }

  lemma StateIsAscii(s: string)
    ensures IsState(s) ==> IsAscii(s)
  {
    assert IsAscii("active") && IsAscii("superseded") && IsAscii("tombstoned") && IsAscii("held");
  }

  lemma RecordBack(k: Codec, e: Entry, more: Bytes)
    requires Lawful(k) && Fits(k, e) && AsciiTexts(TextsOf(e))
    ensures ReadRecord(k, RecordOf(k, e) + more) == Success((Raw(TextsOf(e), e.payload), more))
  {
    hide PackLengths, PackTexts, ReadTexts, Lawful, TextsOf, PackU32, UnpackU32, Short, AsciiTexts;
    var texts := TextsOf(e);
    var head, size, body := PackLengths(k, texts, 0), PackU32(|e.payload|), PackTexts(k, texts, 0);
    var data := RecordOf(k, e) + more;
    TextsBack(k, texts, 0, e.payload + more);
    U32RoundTrip(|e.payload|);
    assert data == head + size + (body + (e.payload + more));
    assert data[..14] == head && data[14..18] == size && data[18..] == body + (e.payload + more);
    assert texts[0..] == texts;
    assert (e.payload + more)[..|e.payload|] == e.payload && (e.payload + more)[|e.payload|..] == more;
  }

  function RawRegistration(raw: Raw): Registration
    requires |raw.texts| == TEXTS
  {
    Registration(raw.texts[0], raw.texts[1], raw.payload, raw.texts[5], raw.texts[3], raw.texts[6])
  }

  /** Taking a record into the catalog. */
  function Accept(k: Codec, cat: Catalog, raw: Raw): Result<Catalog, CatalogError> {
    if |raw.texts| != TEXTS then Failure(Truncated)
    else if raw.texts[2] != HandleFor(k, cat, raw.texts[0], raw.texts[1]) then Failure(HandleDigestMismatch)
    else
      var next :- AfterRegister(k, cat, RawRegistration(raw));
      var i := (raw.texts[0], raw.texts[1]);
      if i !in next.byIdentity || next.byIdentity[i].handle != raw.texts[2]
         || next.byIdentity[i].payloadSha != raw.texts[4] then Failure(CatalogDigestMismatch)
      else Success(next)
  }

  /** The catalog after `count` records, and the bytes behind them. */
  function ReadRecords(k: Codec, cat: Catalog, data: Bytes, count: nat): Result<(Catalog, Bytes), CatalogError>
    decreases count
  {
    if count == 0 then Success((cat, data))
    else
      var record :- ReadRecord(k, data);
      var next :- Accept(k, cat, record.0);
      ReadRecords(k, next, record.1, count - 1)
  }

  /** The records of the entries under these handles. */
  function Records(k: Codec, cat: Catalog, handles: seq<string>): Bytes
    requires forall h | h in handles :: h in cat.byHandle && Fits(k, cat.byHandle[h])
  {
    if handles == [] then []
    else RecordOf(k, cat.byHandle[handles[0]]) + Records(k, cat, handles[1..])
  }

  // ---------- Whole catalogs ----------

  function Header(repository: Bytes, generation: Bytes, count: nat): Bytes
    requires |repository| < MAX_U16 && |generation| < MAX_U16 && count < MAX_U32
  {
    Magic() + PackU16(|repository|) + PackU16(|generation|) + PackU32(count) + repository + generation
  }

  /** The handles of the catalog in order. */
  ghost predicate IsOrder(cat: Catalog, handles: seq<string>) {
    Sorted(StringLe, handles) && NoRepeats(handles) && forall h :: h in handles <==> h in cat.byHandle
  }

  /** `to_bytes`, with the entries in the given order. */
  function Encode(k: Codec, cat: Catalog, handles: seq<string>): Result<Bytes, CatalogError>
    requires forall h | h in handles :: h in cat.byHandle
  {
    var repository, generation := k.utf8(cat.repository), k.utf8(cat.generation);
    if |repository| >= MAX_U16 || |generation| >= MAX_U16 then Failure(MetadataTooLong)
    else if |handles| >= MAX_U32 then Failure(PackError)
    else if exists h | h in handles :: !Fits(k, cat.byHandle[h]) then Failure(RecordTooLarge)
    else Success(Header(repository, generation, |handles|) + Records(k, cat, handles))
  }

  /** The parts of the header, and the bytes behind it. */
  datatype Head = Head(repository: string, generation: string, count: nat, rest: Bytes)

  function ReadHeader(k: Codec, data: Bytes): Result<Head, CatalogError> {
    if |data| > MAX_CATALOG_BYTES || |data| < HEADER_SIZE then Failure(SizeUnsupported)
    else if data[..8] != Magic() then Failure(MagicInvalid)
    else
      var m, n, count := UnpackU16(data[8..10]), UnpackU16(data[10..12]), UnpackU32(data[12..16]);
      if count > MAX_RECORDS then Failure(RecordLimit)
      else if 16 + m > |data| then Failure(Truncated)
      else
        var repository := k.unUtf8(data[16..16 + m]);
        if repository.None? then Failure(TextInvalid)
        else if 16 + m + n > |data| then Failure(Truncated)
        else
          var generation := k.unUtf8(data[16 + m..16 + m + n]);
          if generation.None? then Failure(TextInvalid)
          else Success(Head(repository.value, generation.value, count, data[16 + m + n..]))
  }

  /** A missing or empty choice falls back to what is stored. */
  function Chosen(choice: Option<string>, stored: string): string {
    if choice.None? || choice.value == "" then stored else choice.value
  }

  /** The empty catalog a file is read into, when its scope is the wanted one. */
  function Opened(k: Codec, head: Head, repository: Option<string>, generation: Option<string>)
    : Result<Catalog, CatalogError>
  {
    var cat := EmptyCatalog(k.resolvePath(Chosen(repository, head.repository)), Chosen(generation, head.generation));
    if cat.generation == "" then Failure(GenerationEmpty)
    else if cat.repository != k.resolvePath(head.repository) || cat.generation != head.generation then
      Failure(ScopeMismatch)
    else Success(cat)
  }

  /** `from_bytes`. */
  function Decode(k: Codec, data: Bytes, repository: Option<string>, generation: Option<string>)
    : Result<Catalog, CatalogError>
  {
    var head :- ReadHeader(k, data);
    var cat :- Opened(k, head, repository, generation);
    var read :- ReadRecords(k, cat, head.rest, head.count);
    if read.1 != [] then Failure(TrailingBytes) else Success(read.0)
  }

  // ---------- Round trip ----------

  /** The catalog with only the entries under these handles. */
  ghost function Restrict(cat: Catalog, handles: seq<string>): Catalog {
    Catalog(cat.repository, cat.generation, map h | h in cat.byHandle && h in handles :: cat.byHandle[h],
            map i | i in cat.byIdentity && cat.byIdentity[i].handle in handles :: cat.byIdentity[i])
  }

  /** The next record adds exactly its own entry. */
  lemma AcceptNext(k: Codec, cat: Catalog, done: seq<string>, h: string)
    requires Lawful(k) && Inv(k, cat) && h in cat.byHandle && h !in done
    ensures var e := cat.byHandle[h];
            Accept(k, Restrict(cat, done), Raw(TextsOf(e), e.payload)) == Success(Restrict(cat, done + [h]))
  {
    hide IdentityOk, Lawful, RegistrationOf, IsAscii, IsSha, IsNamespace, Owns;
    var e, part := cat.byHandle[h], Restrict(cat, done);
    assert EntryOk(k, cat, e);
    assert IdentityOf(e) !in part.byIdentity && h !in part.byHandle;
    RestrictInsert(k, cat, done, h);
  }

  lemma RestrictInsert(k: Codec, cat: Catalog, done: seq<string>, h: string)
    requires Inv(k, cat) && h in cat.byHandle && h !in done
    ensures AddEntry(Restrict(cat, done), cat.byHandle[h]) == Restrict(cat, done + [h])
  {
    hide EntryOk, IdentityOf;
  }

  lemma InvEntry(k: Codec, cat: Catalog, h: string)
    requires Inv(k, cat) && h in cat.byHandle
    ensures EntryOk(k, cat, cat.byHandle[h])
  {
    hide EntryOk;
  }

  lemma {:induction false} RecordsBack(k: Codec, cat: Catalog, done: seq<string>, todo: seq<string>, more: Bytes)
    requires Lawful(k) && Inv(k, cat) && NoRepeats(todo)
    requires forall h | h in todo :: h in cat.byHandle && Fits(k, cat.byHandle[h]) && h !in done
    ensures ReadRecords(k, Restrict(cat, done), Records(k, cat, todo) + more, |todo|)
            == Success((Restrict(cat, done + todo), more))
    decreases |todo|
  {
    hide Lawful, Inv, ReadRecord, Accept, RecordOf, Fits, TextsOf, Restrict, EntryOk, AsciiTexts;
    if todo == [] {
      assert Records(k, cat, todo) + more == more && done + todo == done;
    } else {
      var h, rest := todo[0], Records(k, cat, todo[1..]) + more;
      assert h in todo && forall x | x in todo[1..] :: x in todo;
      assert Records(k, cat, todo) + more == RecordOf(k, cat.byHandle[h]) + rest;
      InvEntry(k, cat, h);
      EntryIsAscii(k, cat, cat.byHandle[h]);
      RecordBack(k, cat.byHandle[h], rest);
      AcceptNext(k, cat, done, h);
      RecordsBack(k, cat, done + [h], todo[1..], more);
      assert done + [h] + todo[1..] == done + todo;
    }
  }

  lemma HeaderBack(k: Codec, repository: string, generation: string, count: nat, rest: Bytes)
    requires Lawful(k) && |k.utf8(repository)| < MAX_U16 && |k.utf8(generation)| < MAX_U16 && count < MAX_U32
    ensures var data := Header(k.utf8(repository), k.utf8(generation), count) + rest;
            ReadHeader(k, data)
            == if |data| > MAX_CATALOG_BYTES then Failure(SizeUnsupported)
               else if count > MAX_RECORDS then Failure(RecordLimit)
               else Success(Head(repository, generation, count, rest))
  {
    hide PackU16, PackU32, UnpackU16, UnpackU32, Magic;
    var r, g := k.utf8(repository), k.utf8(generation);
    var m, n := |r|, |g|;
    var data := Header(r, g, count) + rest;
    U16RoundTrip(m, [0, 0]);
    U16RoundTrip(n, [0, 0]);
    U32RoundTrip(count);
    assert data[..8] == Magic() && data[8..10] == PackU16(m) && data[10..12] == PackU16(n);
    assert data[12..16] == PackU32(count);
    assert data[16..16 + m] == r && data[16 + m..16 + m + n] == g && data[16 + m + n..] == rest;
  }

  lemma RestrictAll(cat: Catalog, k: Codec, handles: seq<string>)
    requires Inv(k, cat) && forall h | h in cat.byHandle :: h in handles
    ensures Restrict(cat, handles) == cat
    ensures Restrict(cat, []) == EmptyCatalog(cat.repository, cat.generation)
  {
    hide HandleOk, EntryOk;
    assert Restrict(cat, handles).byHandle == cat.byHandle;
    assert Restrict(cat, handles).byIdentity == cat.byIdentity;
  }

  /** The records of a consistent catalog read back into it. */
  lemma AllRecordsBack(k: Codec, cat: Catalog, handles: seq<string>)
    requires Lawful(k) && Inv(k, cat) && IsOrder(cat, handles) && forall h | h in handles :: Fits(k, cat.byHandle[h])
    ensures ReadRecords(k, EmptyCatalog(cat.repository, cat.generation), Records(k, cat, handles), |handles|)
            == Success((cat, []))
  {
    hide Records, Lawful, Fits;
    RestrictAll(cat, k, handles);
    RecordsBack(k, cat, [], handles, []);
    assert Records(k, cat, handles) + [] == Records(k, cat, handles) && [] + handles == handles;
  }

  /** What a reader of the header and `count` records makes of a file in the wanted scope. */
  lemma DecodeWritten(k: Codec, cat: Catalog, data: Bytes, count: nat, records: Bytes, read: Catalog,
                      repository: Option<string>, generation: Option<string>)
    requires cat.generation != "" && k.resolvePath(cat.repository) == cat.repository
    requires k.resolvePath(Chosen(repository, cat.repository)) == cat.repository
    requires Chosen(generation, cat.generation) == cat.generation
    requires ReadHeader(k, data)
             == if |data| > MAX_CATALOG_BYTES then Failure(SizeUnsupported)
                else if count > MAX_RECORDS then Failure(RecordLimit)
                else Success(Head(cat.repository, cat.generation, count, records))
    requires ReadRecords(k, EmptyCatalog(cat.repository, cat.generation), records, count) == Success((read, []))
    ensures Decode(k, data, repository, generation)
            == if |data| > MAX_CATALOG_BYTES then Failure(SizeUnsupported)
               else if count > MAX_RECORDS then Failure(RecordLimit)
               else Success(read)
  {
    hide ReadHeader, ReadRecords, Chosen;
  }

  /** What `to_bytes` writes of a consistent catalog, `from_bytes` reads back unless it exceeds the reader's limits. */
  lemma ConsistentRoundTrip(k: Codec, cat: Catalog, handles: seq<string>, repository: Option<string>,
                            generation: Option<string>)
    requires Lawful(k) && Inv(k, cat) && IsOrder(cat, handles) && Encode(k, cat, handles).Success?
    requires cat.generation != "" && k.resolvePath(cat.repository) == cat.repository
    requires k.resolvePath(Chosen(repository, cat.repository)) == cat.repository
    requires Chosen(generation, cat.generation) == cat.generation
    ensures var data := Encode(k, cat, handles).value;
            Decode(k, data, repository, generation)
            == if |data| > MAX_CATALOG_BYTES then Failure(SizeUnsupported)
               else if |handles| > MAX_RECORDS then Failure(RecordLimit)
               else Success(cat)
  {
    hide Lawful, Inv, Fits, ReadRecords, ReadHeader, Records, Header, EmptyCatalog, Chosen, Sorted, NoRepeats, Decode;
    var records := Records(k, cat, handles);
    HeaderBack(k, cat.repository, cat.generation, |handles|, records);
    AllRecordsBack(k, cat, handles);
    DecodeWritten(k, cat, Encode(k, cat, handles).value, |handles|, records, cat, repository, generation);
  }

  /** The catalog without the entries whose handle means another one. */
  ghost function Visible(cat: Catalog): Catalog {
    cat.(byIdentity := map i | i in cat.byIdentity && Owns(cat, cat.byIdentity[i]) :: cat.byIdentity[i])
  }

  lemma VisibleInv(k: Codec, cat: Catalog)
    requires WeakInv(k, cat)
    ensures Inv(k, Visible(cat)) && (Visible(cat) == cat <==> Unshadowed(cat))
  {
    hide EntryOk;
    var seen := Visible(cat);
    ScopeOnly(k, cat, seen);
    forall h | h in seen.byHandle ensures HandleOk(k, seen, h) {
      assert HandleOk(k, cat, h);
    }
    forall i | i in seen.byIdentity ensures IdentityOk(k, seen, i) && Owns(seen, seen.byIdentity[i]) {
      assert IdentityOk(k, cat, i);
    }
    if Unshadowed(cat) {
      assert seen.byIdentity == cat.byIdentity;
    }
  }

  lemma VisibleOrder(cat: Catalog, handles: seq<string>)
    requires IsOrder(cat, handles)
    ensures IsOrder(Visible(cat), handles)
    ensures Visible(cat).repository == cat.repository && Visible(cat).generation == cat.generation
  {
    hide Sorted, NoRepeats;
  }

  /** What is written depends on the entries under handles only. */
  lemma {:induction false} RecordsByHandle(k: Codec, a: Catalog, b: Catalog, handles: seq<string>)
    requires a.byHandle == b.byHandle && forall h | h in handles :: h in a.byHandle && Fits(k, a.byHandle[h])
    ensures Records(k, a, handles) == Records(k, b, handles)
  {
    hide Fits, RecordOf;
    if handles != [] {
      assert forall h | h in handles[1..] :: h in handles;
      RecordsByHandle(k, a, b, handles[1..]);
    }
  }

  lemma EncodeByHandle(k: Codec, cat: Catalog, handles: seq<string>)
    requires IsOrder(cat, handles)
    ensures forall h | h in handles :: h in cat.byHandle && h in Visible(cat).byHandle
    ensures Encode(k, cat, handles) == Encode(k, Visible(cat), handles)
  {
    hide Fits, RecordOf, Records, Header, Sorted, NoRepeats;
    if forall h | h in handles :: Fits(k, cat.byHandle[h]) {
      RecordsByHandle(k, cat, Visible(cat), handles);
    }
  }

  /**
   What `to_bytes` writes, `from_bytes` reads back as the same catalog, states included, if and only if the file
   and the number of records are within the reader's limits, which the writer does not check, and no entry has lost
   its handle to another one. Within the limits it reads back as the entries that still own their handle.
   */
  lemma RoundTripIff(k: Codec, cat: Catalog, handles: seq<string>, repository: Option<string>,
                     generation: Option<string>)
    requires Lawful(k) && WeakInv(k, cat) && IsOrder(cat, handles) && Encode(k, cat, handles).Success?
    requires cat.generation != "" && k.resolvePath(cat.repository) == cat.repository
    requires k.resolvePath(Chosen(repository, cat.repository)) == cat.repository
    requires Chosen(generation, cat.generation) == cat.generation
    ensures var data := Encode(k, cat, handles).value;
            && Decode(k, data, repository, generation)
               == (if |data| > MAX_CATALOG_BYTES then Failure(SizeUnsupported)
                   else if |handles| > MAX_RECORDS then Failure(RecordLimit)
                   else Success(Visible(cat)))
            && (Decode(k, data, repository, generation) == Success(cat)
                <==> |data| <= MAX_CATALOG_BYTES && |handles| <= MAX_RECORDS && Unshadowed(cat))
  {
    hide *;
    VisibleInv(k, cat);
    VisibleOrder(cat, handles);
    EncodeByHandle(k, cat, handles);
    ConsistentRoundTrip(k, Visible(cat), handles, repository, generation);
  }

  /** So it is for every catalog that calls of `register` and `tombstone` lead to. */
  lemma ReachedRoundTripIff(k: Codec, path: string, gen: string, ops: seq<Operation>, handles: seq<string>)
    requires Lawful(k) && gen != ""
    requires var cat := Run(k, EmptyCatalog(k.resolvePath(path), gen), ops);
             IsOrder(cat, handles) && Encode(k, cat, handles).Success?
    ensures var cat := Run(k, EmptyCatalog(k.resolvePath(path), gen), ops);
            var data := Encode(k, cat, handles).value;
            && (Decode(k, data, None, None) == Success(cat)
                <==> |data| <= MAX_CATALOG_BYTES && |handles| <= MAX_RECORDS && Unshadowed(cat))
            && (Decode(k, data, None, None).Success? ==> Decode(k, data, None, None).value == Visible(cat))
  {
    var empty := EmptyCatalog(k.resolvePath(path), gen);
    assert k.resolvePath(k.resolvePath(path)) == k.resolvePath(path);
    RunKeepsWeakInv(k, empty, ops);
    RoundTripIff(k, Run(k, empty, ops), handles, None, None);
  }

  /**
   A catalog over the limits: one entry with a payload of more than 64 MiB is registered and written, and the
   file is refused.
   */
  lemma OversizedCatalog(k: Codec, repository: string, generation: string, r: Registration)
    requires Lawful(k) && k.resolvePath(repository) == repository && generation != ""
    requires Check(r).Pass? && |r.payload| > MAX_CATALOG_BYTES
    requires |k.utf8(repository)| < MAX_U16 && |k.utf8(generation)| < MAX_U16
    requires Fits(k, EntryFor(k, EmptyCatalog(repository, generation), r))
    ensures var next := AfterRegister(k, EmptyCatalog(repository, generation), r);
            && next.Success? && Inv(k, next.value)
            && var written := Encode(k, next.value, [HandleFor(k, next.value, r.namespace, r.canonicalId)]);
               written.Success? && Decode(k, written.value, None, None) == Failure(SizeUnsupported)
  {
    hide Check, Lawful, Inv, RecordOf, Fits, Header;
    var cat := EmptyCatalog(repository, generation);
    var e := EntryFor(k, cat, r);
    RegisterNew(k, cat, r);
    OneEntryInv(k, cat, r);
    var one := AddEntry(cat, e);
    assert one.byHandle[e.handle] == e;
    var handles := [e.handle];
    assert handles[1..] == [];
    NoRecords(k, one);
    RecordSize(k, e);
  }

  lemma OneEntryInv(k: Codec, cat: Catalog, r: Registration)
    requires cat.byHandle == map[] && cat.byIdentity == map[] && Check(r).Pass?
    ensures Inv(k, AddEntry(cat, EntryFor(k, cat, r)))
  {
    InsertKeepsInv(k, cat, EntryFor(k, cat, r));
  }

  lemma RecordSize(k: Codec, e: Entry)
    requires Fits(k, e)
    ensures |RecordOf(k, e)| >= |e.payload|
  {
  }

  /** The bytes depend on the catalog alone. */
  lemma BytesAreCanonical(k: Codec, cat: Catalog, a: seq<string>, b: seq<string>)
    requires IsOrder(cat, a) && IsOrder(cat, b)
    ensures Encode(k, cat, a) == Encode(k, cat, b)
  {
    OneSortedList(a, b);
  }

  // ---------- No prefix, no extension ----------

  lemma ReadTextsStep(k: Codec, head: Bytes, data: Bytes, i: nat)
    requires |head| == 2 * TEXTS && i < TEXTS
    ensures var n := LengthAt(head, i);
            ReadTexts(k, head, data, i).Success? <==>
              n <= |data| && DecodeText(k, i, data[..n]).Some? && ReadTexts(k, head, data[n..], i + 1).Success?
    ensures ReadTexts(k, head, data, i).Success? ==>
              var n := LengthAt(head, i);
              var rest := ReadTexts(k, head, data[n..], i + 1).value;
              ReadTexts(k, head, data, i) == Success(([DecodeText(k, i, data[..n]).value] + rest.0, rest.1))
  {
    hide LengthAt, DecodeText;
  }

  lemma {:induction false} TextsExtend(k: Codec, head: Bytes, data: Bytes, i: nat, more: Bytes)
    requires |head| == 2 * TEXTS && i <= TEXTS && ReadTexts(k, head, data, i).Success?
    ensures var r := ReadTexts(k, head, data, i).value;
            ReadTexts(k, head, data + more, i) == Success((r.0, r.1 + more))
    decreases TEXTS - i
  {
    hide LengthAt, DecodeText, ReadTexts;
    if i == TEXTS {
      NoMoreTexts(k, head, data);
      NoMoreTexts(k, head, data + more);
    } else {
      ReadTextsStep(k, head, data, i);
      var n := LengthAt(head, i);
      assert (data + more)[..n] == data[..n] && (data + more)[n..] == data[n..] + more;
      TextsExtend(k, head, data[n..], i + 1, more);
      ReadTextsStep(k, head, data + more, i);
    }
  }

  lemma NoMoreTexts(k: Codec, head: Bytes, data: Bytes)
    requires |head| == 2 * TEXTS
    ensures ReadTexts(k, head, data, TEXTS) == Success(([], data))
  {
  }

  lemma RecordExtends(k: Codec, data: Bytes, more: Bytes)
    requires ReadRecord(k, data).Success?
    ensures var r := ReadRecord(k, data).value; ReadRecord(k, data + more) == Success((r.0, r.1 + more))
  {
    hide ReadTexts, UnpackU32;
    var all := data + more;
    assert all[..14] == data[..14] && all[14..18] == data[14..18] && all[18..] == data[18..] + more;
    TextsExtend(k, data[..14], data[18..], 0, more);
    var texts := ReadTexts(k, data[..14], data[18..], 0).value;
    var size := UnpackU32(data[14..18]);
    assert (texts.1 + more)[..size] == texts.1[..size] && (texts.1 + more)[size..] == texts.1[size..] + more;
  }

  lemma {:induction false} RecordsExtend(k: Codec, cat: Catalog, data: Bytes, count: nat, more: Bytes)
    requires ReadRecords(k, cat, data, count).Success?
    ensures var r := ReadRecords(k, cat, data, count).value;
            ReadRecords(k, cat, data + more, count) == Success((r.0, r.1 + more))
    decreases count
  {
    hide ReadRecord, Accept;
    if count > 0 {
      var record := ReadRecord(k, data).value;
      RecordExtends(k, data, more);
      RecordsExtend(k, Accept(k, cat, record.0).value, record.1, count - 1, more);
    }
  }

  lemma HeaderExtends(k: Codec, data: Bytes, more: Bytes)
    requires ReadHeader(k, data).Success? && |data + more| <= MAX_CATALOG_BYTES
    ensures var h := ReadHeader(k, data).value; ReadHeader(k, data + more) == Success(h.(rest := h.rest + more))
  {
    hide UnpackU16, UnpackU32, Magic;
    var all := data + more;
    assert all[..8] == data[..8] && all[8..10] == data[8..10];
    assert all[10..12] == data[10..12] && all[12..16] == data[12..16];
    var m, n := UnpackU16(data[8..10]), UnpackU16(data[10..12]);
    assert all[16..16 + m] == data[16..16 + m] && all[16 + m..16 + m + n] == data[16 + m..16 + m + n];
    assert all[16 + m + n..] == data[16 + m + n..] + more;
  }

  /** No strict extension of an accepted file is accepted, and so no strict prefix of one. */
  lemma AcceptedIsPrefixFree(k: Codec, data: Bytes, more: Bytes, repository: Option<string>, generation: Option<string>)
    requires Decode(k, data, repository, generation).Success? && more != []
    ensures Decode(k, data + more, repository, generation)
            == Failure(if |data + more| > MAX_CATALOG_BYTES then SizeUnsupported else TrailingBytes)
  {
    hide ReadRecords;
    if |data + more| <= MAX_CATALOG_BYTES {
      HeaderExtends(k, data, more);
      var head := ReadHeader(k, data).value;
      var cat := Opened(k, head, repository, generation).value;
      assert Opened(k, head.(rest := head.rest + more), repository, generation) == Success(cat);
      RecordsExtend(k, cat, head.rest, head.count, more);
    }
  }

  // ---------- The loops ----------

  /** `to_bytes`. */
  method ToBytes(c: AddressCatalog) returns (result: Result<Bytes, CatalogError>)
    ensures exists handles :: IsOrder(c.Abstract(), handles) && result == Encode(c.k, c.Abstract(), handles)
  {
    hide Sorted, Fits, Records, PackU16;
    var k := c.k;
    var repository, generation := k.utf8(c.repository), k.utf8(c.generation);
    var handles := SortedKeys(c.byHandle.Keys);
    assert IsOrder(c.Abstract(), handles);
    if |repository| >= MAX_U16 || |generation| >= MAX_U16 {
      return Failure(MetadataTooLong);
    }
    if |handles| >= MAX_U32 {
      return Failure(PackError);
    }
    var output := Header(repository, generation, |handles|);
    var records: Bytes := [];
    NoRecords(k, c.Abstract());
    for i := 0 to |handles|
      invariant forall j | 0 <= j < i :: Fits(k, c.byHandle[handles[j]])
      invariant records == Records(k, c.Abstract(), handles[..i])
    {
      var e := c.byHandle[handles[i]];
      if !Fits(k, e) {
        assert handles[i] in handles;
        return Failure(RecordTooLarge);
      }
      RecordsSnoc(k, c.Abstract(), handles[..i], handles[i]);
      assert handles[..i + 1] == handles[..i] + [handles[i]];
      records := records + RecordOf(k, e);
    }
    assert handles[..|handles|] == handles;
    result := Success(output + records);
  }

  lemma NoRecords(k: Codec, cat: Catalog)
    ensures Records(k, cat, []) == []
  {
  }

  lemma {:induction false} RecordsSnoc(k: Codec, cat: Catalog, handles: seq<string>, h: string)
    requires forall x | x in handles + [h] :: x in cat.byHandle && Fits(k, cat.byHandle[x])
    ensures forall x | x in handles :: x in cat.byHandle && Fits(k, cat.byHandle[x])
    ensures h in cat.byHandle && Fits(k, cat.byHandle[h])
    ensures Records(k, cat, handles + [h]) == Records(k, cat, handles) + RecordOf(k, cat.byHandle[h])
    decreases |handles|
  {
    hide Fits, RecordOf;
    assert forall x | x in handles :: x in handles + [h];
    assert h in handles + [h];
    if handles == [] {
      assert [h][1..] == [];
      NoRecords(k, cat);
      assert handles + [h] == [h];
    } else {
      assert (handles + [h])[1..] == handles[1..] + [h];
      RecordsSnoc(k, cat, handles[1..], h);
    }
  }

  /** `from_bytes`: the loop over the records fills a new object; on an error nobody sees it. */
  method FromBytes(k: Codec, data: Bytes, repository: Option<string>, generation: Option<string>)
    returns (result: Result<AddressCatalog, CatalogError>)
    ensures result.Failure? ==> Decode(k, data, repository, generation) == Failure(result.error)
    ensures result.Success? ==> fresh(result.value) && result.value.k == k
                                && Decode(k, data, repository, generation) == Success(result.value.Abstract())
  {
    hide ReadHeader, ReadRecord, Accept, ReadRecords;
    var header := ReadHeader(k, data);
    if header.Failure? {
      return Failure(header.error);
    }
    var head := header.value;
    var scope := Opened(k, head, repository, generation);
    if scope.Failure? {
      return Failure(scope.error);
    }
    var c := new AddressCatalog(k, Chosen(repository, head.repository), Chosen(generation, head.generation));
    var rest := head.rest;
    ghost var want := ReadRecords(k, c.Abstract(), rest, head.count);
    for i := 0 to head.count
      invariant fresh(c) && c.k == k && want == ReadRecords(k, c.Abstract(), rest, head.count - i)
    {
      RecordsStep(k, c.Abstract(), rest, head.count - i);
      var record := ReadRecord(k, rest);
      if record.Failure? {
        return Failure(record.error);
      }
      var failed := AcceptInto(c, record.value.0);
      if failed.Some? {
        return Failure(failed.value);
      }
      rest := record.value.1;
    }
    RecordsEnd(k, c.Abstract(), rest);
    if rest != [] {
      return Failure(TrailingBytes);
    }
    result := Success(c);
  }

  lemma RecordsStep(k: Codec, cat: Catalog, data: Bytes, count: nat)
    requires count > 0
    ensures var record, all := ReadRecord(k, data), ReadRecords(k, cat, data, count);
            && (record.Failure? ==> all == Failure(record.error))
            && (record.Success? ==>
                  var next := Accept(k, cat, record.value.0);
                  && (next.Failure? ==> all == Failure(next.error))
                  && (next.Success? ==> all == ReadRecords(k, next.value, record.value.1, count - 1)))
  {
    hide ReadRecord, Accept;
  }

  lemma RecordsEnd(k: Codec, cat: Catalog, data: Bytes)
    ensures ReadRecords(k, cat, data, 0) == Success((cat, data))
  {
  }

  /** One record of the loop. */
  method AcceptInto(c: AddressCatalog, raw: Raw) returns (failed: Option<CatalogError>)
    modifies c
    ensures var next := Accept(c.k, old(c.Abstract()), raw);
            && (failed.Some? ==> next == Failure(failed.value))
            && (failed.None? ==> next == Success(c.Abstract()))
  {
    hide AfterRegister;
    if |raw.texts| != TEXTS {
      return Some(Truncated);
    }
    if raw.texts[2] != c.k.handle(c.repository, c.generation, raw.texts[0], raw.texts[1]) {
      return Some(HandleDigestMismatch);
    }
    RegisterHolds(c.k, c.Abstract(), RawRegistration(raw));
    var entry := c.Register(RawRegistration(raw));
    if entry.Failure? {
      return Some(entry.error);
    }
    if entry.value.handle != raw.texts[2] || entry.value.payloadSha != raw.texts[4] {
      return Some(CatalogDigestMismatch);
    }
    failed := None;
  }

  lemma RegisterHolds(k: Codec, cat: Catalog, r: Registration)
    ensures AfterRegister(k, cat, r).Success? ==>
              (r.namespace, r.canonicalId) in AfterRegister(k, cat, r).value.byIdentity
  {
    hide Check;
  }
}
