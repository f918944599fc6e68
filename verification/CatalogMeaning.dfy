/**
 The decisions of the catalog and of its file in plain conditions: what is registered, resolved and taken out, and
 how a file is refused.
 */
module CatalogMeaning {
  import opened Bytes
  import opened Catalog
  import opened CatalogCodec
  import opened Wrappers

  // ---------- Calls ----------

  function HexDigits(): string {
    "0123456789abcdef"
  }

  lemma ShaMeans(s: string)
    ensures IsSha(s) <==> |s| == 64 && forall i | 0 <= i < |s| :: s[i] in HexDigits()
  {
    forall c | c in s ensures '0' <= c <= '9' || 'a' <= c <= 'f' <==> c in HexDigits() {
      DigitIn(c);
    }
    assert forall i | 0 <= i < |s| :: s[i] in s;
    hide HexDigits;
  }

  lemma DigitIn(c: char)
    ensures '0' <= c <= '9' || 'a' <= c <= 'f' <==> c in HexDigits()
  {
    var digits := HexDigits();
    if '0' <= c <= '9' {
      assert digits[c as int - '0' as int] == c;
    } else if 'a' <= c <= 'f' {
      assert digits[c as int - 'a' as int + 10] == c;
    }
  }

  /** Which registrations are well-formed, and what is wrong with the others. */
  lemma CheckMeans(r: Registration)
    ensures Check(r) ==
            if r.namespace !in {"file", "symbol", "relation", "span", "test", "plan", "precedent", "receipt", "skill"}
            then Fail(NamespaceUnsupported)
            else if !IsSha(r.canonicalId) || !IsSha(r.sourceSha) then Fail(ShaInvalid)
            else if |r.segment| == 0 then Fail(SegmentEmpty)
            else if r.state in {"active", "superseded", "tombstoned", "held"} then Pass
            else Fail(StateUnsupported)
  {
    hide IsSha;
  }

  lemma RegisterChecks(k: Codec, cat: Catalog, r: Registration)
    ensures Check(r).Fail? ==> AfterRegister(k, cat, r) == Failure(Check(r).error)
  {
    hide Check;
  }

  /** How a handle is refused: the first of these that holds. */
  lemma ResolutionFails(k: Codec, cat: Catalog, handle: string, g: Guards)
    ensures Resolution(k, cat, handle, g) ==
            if handle !in cat.byHandle then Failure(HandleNotFound)
            else
              var e := cat.byHandle[handle];
              if g.repository.Some? && e.repository != k.resolvePath(g.repository.value) then Failure(CrossRepository)
              else if g.generation !in {None, Some(e.generation)} then Failure(StaleGeneration)
              else if g.namespace !in {None, Some(e.namespace)} then Failure(NamespaceMismatch)
              else if e.state != "active" then Failure(NotActive(e.state))
              else if g.payloadSha !in {None, Some(e.payloadSha)} then Failure(PayloadDigestMismatch)
              else if e.payloadSha == k.sha(e.payload) then Success(e)
              else Failure(PayloadCorrupt)
  {
  }

  /** Only the state of the handle's entry changes, in both maps, and never back to active. */
  lemma TombstoneMeans(k: Codec, cat: Catalog, handle: string, state: string)
    requires WeakInv(k, cat)
    ensures var result := AfterTombstone(cat, handle, state);
            if state !in {"superseded", "tombstoned", "held"} then result == Failure(StateUnsupported)
            else if handle !in cat.byHandle then result == Failure(HandleNotFound)
            else
              var e := cat.byHandle[handle];
              && result.Success? && SameScope(cat, result.value)
              && result.value.byHandle.Keys == cat.byHandle.Keys
              && result.value.byIdentity.Keys == cat.byIdentity.Keys
              && (forall h | h in cat.byHandle ::
                    result.value.byHandle[h] == if h == handle then e.(state := state) else cat.byHandle[h])
              && forall i | i in cat.byIdentity ::
                   result.value.byIdentity[i] == if i == (e.namespace, e.canonicalId) then e.(state := state)
                                                 else cat.byIdentity[i]
  {
    hide EntryOk, IdentityOk;
    if handle in cat.byHandle {
      assert HandleOk(k, cat, handle);
    }
  }

  /** A call of a run does what the method does, and nothing when it raises. */
  lemma StepMeans(k: Codec, cat: Catalog, r: Registration, handle: string, state: string)
    ensures var result := AfterRegister(k, cat, r);
            Step(k, cat, Register(r)) == if result.Failure? then cat else result.value
    ensures var result := AfterTombstone(cat, handle, state);
            Step(k, cat, Tombstone(handle, state)) == if result.Failure? then cat else result.value
  {
    hide AfterRegister, AfterTombstone;
  }

  /** A run makes one call after another, from the first to the last. */
  lemma {:induction false} RunGoesOn(k: Codec, cat: Catalog, ops: seq<Operation>, op: Operation)
    ensures Run(k, cat, []) == cat
    ensures Run(k, cat, ops + [op]) == Step(k, Run(k, cat, ops), op)
    decreases |ops|
  {
    hide Step;
    if ops == [] {
      assert [] + [op] == [op] && [op][1..] == [];
    } else {
      RunGoesOn(k, Step(k, cat, ops[0]), ops[1..], op);
      assert (ops + [op])[1..] == ops[1..] + [op];
    }
  }

  // ---------- Files ----------

  /** A text is cut off or does not decode, or the rest of the texts decides. */
  lemma TextFails(k: Codec, head: Bytes, data: Bytes, i: nat)
    requires |head| == 14 && i < 7
    ensures var n, result := LengthAt(head, i), ReadTexts(k, head, data, i);
            && (|data| < n ==> result == Failure(Truncated))
            && (|data| >= n && DecodeText(k, i, data[..n]) == None ==> result == Failure(TextInvalid))
            && (|data| >= n && DecodeText(k, i, data[..n]).Some? ==>
                  var rest := ReadTexts(k, head, data[n..], i + 1);
                  result == if rest.Failure? then rest
                            else Success(([DecodeText(k, i, data[..n]).value] + rest.value.0, rest.value.1)))
  {
    hide LengthAt, DecodeText;
  }

  /** A record has 14 bytes of lengths, four of the payload's, the texts, and the payload. */
  lemma RecordFails(k: Codec, data: Bytes)
    ensures var result := ReadRecord(k, data);
            if |data| < 18 then result == Failure(Truncated)
            else
              var texts := ReadTexts(k, data[..14], data[18..], 0);
              if texts.Failure? then result == Failure(texts.error)
              else result.Failure? <==> UnpackU32(data[14..18]) > |texts.value.1|
    ensures ReadRecord(k, data).Failure? ==> ReadRecord(k, data).error in {Truncated, TextInvalid}
  {
    hide UnpackU32;
    if |data| >= 18 {
      TextErrors(k, data[..14], data[18..], 0);
    }
  }

  lemma {:induction false} TextErrors(k: Codec, head: Bytes, data: Bytes, i: nat)
    requires |head| == 14 && i <= 7
    ensures ReadTexts(k, head, data, i).Failure? ==> ReadTexts(k, head, data, i).error in {Truncated, TextInvalid}
    decreases 7 - i
  {
    hide LengthAt, DecodeText;
    if i < 7 && LengthAt(head, i) <= |data| {
      TextErrors(k, head, data[LengthAt(head, i)..], i + 1);
    }
  }

  /**
   A record is taken into a consistent catalog exactly when its handle is the one that its identity gets, its digest
   is that of its payload, and it can be registered.
   */
  lemma AcceptIff(k: Codec, cat: Catalog, raw: Raw)
    requires WeakInv(k, cat) && |raw.texts| == 7
    ensures var result, next := Accept(k, cat, raw), AfterRegister(k, cat, RawRegistration(raw));
            result == if raw.texts[2] != k.handle(cat.repository, cat.generation, raw.texts[0], raw.texts[1])
                      then Failure(HandleDigestMismatch)
                      else if next.Failure? then Failure(next.error)
                      else if raw.texts[4] == k.sha(raw.payload) then next
                      else Failure(CatalogDigestMismatch)
  {
    hide Check;
    var i := (raw.texts[0], raw.texts[1]);
    if i in cat.byIdentity {
      assert IdentityOk(k, cat, i);
    }
  }

  /** When a catalog can be written, and what is wrong with the others. */
  lemma EncodeIff(k: Codec, cat: Catalog, handles: seq<string>)
    requires forall h | h in handles :: h in cat.byHandle
    ensures Encode(k, cat, handles).Success?
            <==> && |k.utf8(cat.repository)| <= 65535 && |k.utf8(cat.generation)| <= 65535 && |handles| <= 4294967295
                 && forall h | h in handles ::
                      |cat.byHandle[h].payload| <= 4294967295 && Short(k, TextsOf(cat.byHandle[h]))
    ensures Encode(k, cat, handles).Success? || Encode(k, cat, handles) == Failure(
              if |k.utf8(cat.repository)| > 65535 || |k.utf8(cat.generation)| > 65535 then MetadataTooLong
              else if |handles| > 4294967295 then PackError
              else RecordTooLarge)
  {
    hide Short, TextsOf, Records, Header;
  }

  /** How the header of a file is refused. */
  lemma HeaderFails(k: Codec, data: Bytes)
    ensures ReadHeader(k, data).Success? || ReadHeader(k, data) == Failure(
              if |data| < 16 || |data| > MAX_CATALOG_BYTES then SizeUnsupported
              else if data[..8] != [0x53, 0x46, 0x41, 0x43, 0x41, 0x54, 0x30, 0x31] then MagicInvalid
              else
                var m, n := UnpackU16(data[8..10]), UnpackU16(data[10..12]);
                if UnpackU32(data[12..16]) > MAX_RECORDS then RecordLimit
                else if |data| - 16 < m then Truncated
                else if k.unUtf8(data[16..16 + m]) == None then TextInvalid
                else if |data| - 16 < m + n then Truncated
                else TextInvalid)
    ensures ReadHeader(k, data).Success? ==>
              && |data| <= MAX_CATALOG_BYTES && data[..8] == [0x53, 0x46, 0x41, 0x43, 0x41, 0x54, 0x30, 0x31]
              && ReadHeader(k, data).value.count <= MAX_RECORDS
  {
    hide UnpackU16, UnpackU32;
  }

  /**
   Which catalog a file opens: that of the repository and generation it names; a caller who names others, and not the
   empty text, is refused.
   */
  lemma OpenedMeans(k: Codec, head: Head, repository: Option<string>, generation: Option<string>)
    requires k.resolvePath(k.resolvePath(head.repository)) == k.resolvePath(head.repository)
    ensures var result := Opened(k, head, repository, generation);
            var silent := (choice: Option<string>) => choice == None || choice == Some("");
            && (result == Failure(GenerationEmpty) <==> head.generation == "" && silent(generation))
            && (result.Success? <==> && head.generation != ""
                                     && (silent(generation) || generation == Some(head.generation))
                                     && (silent(repository)
                                         || k.resolvePath(repository.value) == k.resolvePath(head.repository)))
            && (result.Success? ==>
                  result.value == Catalog(k.resolvePath(head.repository), head.generation, map[], map[]))
            && (result.Failure? ==> result.error in {GenerationEmpty, ScopeMismatch})
  {
  }
}
