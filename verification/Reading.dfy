/**
 What reading accepts, in plain conditions on the JSON fields: paths, operations and changesets; and what it makes
 of them.
 */
module Reading {
  import opened ChangeSet
  import opened Json
  import opened Ordering
  import opened Wrappers

  // ---------- Paths ----------

  /** The parts with a slash between each two. */
  function Joined(parts: seq<string>): string
    requires parts != []
  {
    if |parts| == 1 then parts[0] else parts[0] + "/" + Joined(parts[1..])
  }

  predicate NoSlashes(parts: seq<string>) {
    forall i | 0 <= i < |parts| :: '/' !in parts[i]
  }

  lemma {:induction false} PartsJoin(s: string)
    ensures Joined(Parts(s)) == s && NoSlashes(Parts(s))
  {
    if s != "" {
      PartsJoin(s[1..]);
      var rest := Parts(s[1..]);
      if s[0] == '/' {
        assert Parts(s)[1..] == rest;
        assert "" + "/" + s[1..] == s;
      } else {
        assert Parts(s) == [[s[0]] + rest[0]] + rest[1..];
        if |rest| > 1 {
          assert Parts(s)[1..] == rest[1..];
          assert [s[0]] + rest[0] + "/" + Joined(rest[1..]) == [s[0]] + Joined(rest);
        }
      }
    }
  }

  /** A text has no other slash-free parts than those it is split into. */
  lemma {:induction false} PartsOfJoined(parts: seq<string>)
    requires parts != [] && NoSlashes(parts)
    ensures Parts(Joined(parts)) == parts
    decreases |parts|, |parts[0]|
  {
    var s := Joined(parts);
    if parts[0] == "" {
      if |parts| > 1 {
        assert s == "" + "/" + Joined(parts[1..]) && s[1..] == Joined(parts[1..]);
        PartsOfJoined(parts[1..]);
        assert parts == [""] + parts[1..];
      }
    } else {
      var shorter := [parts[0][1..]] + parts[1..];
      assert parts[0][0] in parts[0];
      assert shorter[1..] == parts[1..];
      PartsOfJoined(shorter);
      assert s[1..] == Joined(shorter);
      assert parts[0] == [s[0]] + parts[0][1..];
      assert parts == [parts[0]] + parts[1..];
    }
  }

  /** Components that stay inside the repository: none is empty, "." or "..". */
  predicate Inside(parts: seq<string>) {
    parts != [] && forall i | 0 <= i < |parts| :: parts[i] !in {"", ".", ".."} && '/' !in parts[i]
  }

  /**
   A value is a path exactly when, with a slash for each backslash, it consists of components inside the repository
   with single slashes between them, and it holds no NUL and no colon.
   */
  lemma PathIff(value: string, path: string)
    ensures NormalPath(value) == Success(path)
            <==> && '\0' !in value && ':' !in value && |path| == |value|
                 && (forall i | 0 <= i < |value| :: path[i] == if value[i] == '\\' then '/' else value[i])
                 && exists parts :: Inside(parts) && path == Joined(parts)
  {
    hide Parts;
    PartsJoin(path);
    if exists parts :: Inside(parts) && path == Joined(parts) {
      var parts :| Inside(parts) && path == Joined(parts);
      PartsOfJoined(parts);
      EmptyPath(parts);
    }
    if |path| == |value| && forall i | 0 <= i < |value| :: path[i] == if value[i] == '\\' then '/' else value[i] {
      assert path == Slashes(value);
    }
    if NormalPath(value) == Success(path) {
      assert Inside(Parts(path));
    }
  }

  lemma EmptyPath(parts: seq<string>)
    requires Inside(parts)
    ensures Joined(parts) != ""
  {
  }

  /** What else is refused: leaving the repository is one error, and every other fault the other. */
  lemma PathFails(value: string, parts: seq<string>)
    requires parts != [] && NoSlashes(parts) && Joined(parts) == Slashes(value)
    ensures NormalPath(value).Success? || NormalPath(value) == Failure(
              if value == "" || '\0' in value || ':' in value then PathInvalid
              else if "." in parts || ".." in parts then PathOutsideRepository else PathInvalid)
  {
    hide Joined, Parts, Slashes, NoSlashes;
    PartsOfJoined(parts);
  }

  // ---------- The fields of an operation ----------

  lemma {:induction false} DashesAt(s: string)
    ensures |Dashes(s)| == |s|
    ensures forall i | 0 <= i < |s| :: Dashes(s)[i] == if s[i] == '_' then '-' else s[i]
  {
    if s != "" {
      DashesAt(s[1..]);
    }
  }

  lemma SameUnlessDashed(raw: string, name: string)
    requires '-' !in name && '_' !in name
    ensures Dashes(raw) == name <==> raw == name
  {
    DashesAt(raw);
    DashesKeeps(name);
    if Dashes(raw) == name {
      forall i | 0 <= i < |raw| ensures raw[i] == name[i] {
        assert name[i] in name;
      }
    }
  }

  /** The four types, with a dash or an underscore in the one that has two words. */
  lemma TypeMeans(raw: string)
    ensures ParseOp(raw) == if raw == "create" then Some(Create)
                            else if raw == "replace-range" || raw == "replace_range" then Some(ReplaceRange)
                            else if raw == "rename" then Some(Rename)
                            else if raw == "delete" then Some(Delete)
                            else None
  {
    hide Dashes;
    DashesAt(raw);
    SameUnlessDashed(raw, "create");
    SameUnlessDashed(raw, "rename");
    SameUnlessDashed(raw, "delete");
    var name := "replace-range";
    assert name[..7] == "replace" && name[7] == '-';
    DashesAt(name);
    DashesAt(name[7 := '_']);
    assert Dashes(name) == name && Dashes(name[7 := '_']) == name;
    if Dashes(raw) == name {
      assert raw == name[7 := raw[7]];
    }
    assert name[7 := '_'] == "replace_range";
    OpNamesDiffer();
  }

  /** A digest is 64 hexadecimal digits in either case, and is read in lower case. */
  lemma ShaMeans(value: Json)
    ensures Sha(value) ==
            if value == JNull then Success(None)
            else if value.JString? && |value.s| == 64
                    && (forall i | 0 <= i < 64 ::
                          '0' <= value.s[i] <= '9' || 'a' <= value.s[i] <= 'f' || 'A' <= value.s[i] <= 'F')
            then Success(Some(Lower(value.s)))
            else Failure(Sha256Invalid)
  {
    if value.JString? && |value.s| == 64 {
      var s, lower := value.s, Lower(value.s);
      forall i | 0 <= i < 64
        ensures IsHexChar(lower[i]) <==> '0' <= s[i] <= '9' || 'a' <= s[i] <= 'f' || 'A' <= s[i] <= 'F'
      {
      }
      assert forall i | 0 <= i < 64 :: lower[i] in lower;
    }
  }

  /** Content is given in base64, or else as text; what is given must decode. */
  lemma ContentMeans(k: Codecs, v: map<Name, Json>)
    requires Lawful(k)
    ensures var given, text := Get(v, KContentB64), Get(v, KContent);
            && (given.JString? && k.unb64(given.s).Some? ==> ReadContent(k, v) == Success(Some(given.s)))
            && (given != JNull && !(given.JString? && k.unb64(given.s).Some?) ==>
                  ReadContent(k, v) == Failure(ContentEncodingInvalid))
            && (given == JNull && text == JNull ==> ReadContent(k, v) == Success(None))
            && (given == JNull && text.JString? ==> ReadContent(k, v) == Success(Some(k.b64(k.encodeUtf8(text.s)))))
            && (given == JNull && text != JNull && !text.JString? ==> ReadContent(k, v) == Failure(ContentInvalid))
  {
  }

  /** The content that is written beside the base64 decodes it in the operation's encoding, UTF-8 if it has none. */
  lemma WrittenContentMeans(k: Codecs, o: ChangeOperation, text: string)
    ensures Get(TextFields(k, o), KContent) == JString(text)
            <==> && o.contentB64.Some? && k.unb64(o.contentB64.value).Some?
                 && k.decode(if o.encoding in {None, Some("")} then "utf-8" else o.encoding.value,
                             k.unb64(o.contentB64.value).value) == Some(text)
  {
    hide OpName, DecodedContent, TextFields;
    TextFieldsOf(k, o);
    DecodedMeans(k, o);
  }

  lemma DecodedMeans(k: Codecs, o: ChangeOperation)
    ensures DecodedContent(k, o)
            == if o.contentB64.Some? && k.unb64(o.contentB64.value).Some?
               then k.decode(if o.encoding in {None, Some("")} then "utf-8" else o.encoding.value,
                             k.unb64(o.contentB64.value).value)
               else None
  {
  }

  /** The line numbers: those of the line map, or else those of the line fields; from 1 on and in order. */
  lemma LinesMean(v: map<Name, Json>, m: LineMap)
    ensures ReadLines(v) == Success(m)
            <==> && 1 <= m.start <= m.end
                 && if Get(v, KLineMap) != JNull then
                      && Get(v, KLineMap).JObject?
                      && Get(Get(v, KLineMap).fields, KStartLine) == JInt(m.start)
                      && Get(Get(v, KLineMap).fields, KEndLine) == JInt(m.end)
                    else
                      && Get(v, if KStartLine in v then KStartLine else KLineStart) == JInt(m.start)
                      && Get(v, if KEndLine in v then KEndLine else KLineEnd) == JInt(m.end)
    ensures ReadLines(v) == Failure(LineMapRequired)
            <==> && Get(v, KLineMap) == JNull
                 && !(&& Get(v, if KStartLine in v then KStartLine else KLineStart).JInt?
                      && Get(v, if KEndLine in v then KEndLine else KLineEnd).JInt?)
    ensures ReadLines(v).Success? || ReadLines(v).error in {LineMapRequired, LineMapInvalid}
  {
  }

  /** An optional text field: absent or null, or a text that is not blank. */
  predicate OptionalText(k: Codecs, value: Json, text: Option<string>) {
    if value == JNull then text == None
    else text.Some? && value == JString(text.value) && exists c :: c in text.value && !k.isSpace(c)
  }

  /**
   A replacement has no byte offsets, an encoding, line numbers, and their digest if it names one; the other types
   have no line numbers.
   */
  lemma RangeMeans(k: Codecs, op: OpType, v: map<Name, Json>, r: Range)
    ensures ReadRange(k, op, v) == Success(r)
            <==> if op == ReplaceRange then
                   && KByteStart !in v && KByteEnd !in v && KOffset !in v && KByteOffset !in v
                   && r.encoding.Some? && (exists c :: c in r.encoding.value && !k.isSpace(c))
                   && (if KEncoding in v then v[KEncoding] == JString(r.encoding.value)
                       else r.encoding.value == "utf-8")
                   && r.lineMap.Some? && ReadLines(v) == Success(r.lineMap.value)
                   && r.lineMapSha == Some(k.hex(k.sha256(k.dumps(LineMapJson(r.lineMap.value)))))
                   && Get(v, KLineMapSha) in {JNull, JString(r.lineMapSha.value)}
                 else r.lineMap == None && OptionalText(k, Get(v, KEncoding), r.encoding)
                      && OptionalText(k, Get(v, KLineMapSha), r.lineMapSha)
  {
    hide ReadLines, LineMapJson;
  }

  /** What each type must carry. */
  lemma PayloadMeans(o: ChangeOperation)
    ensures CheckPayload(o).Pass?
            <==> match o.op
                 case Create => o.contentB64.Some? && o.after.Some?
                 case ReplaceRange => o.contentB64.Some? && o.before.Some? && o.after.Some?
                 case Rename => o.dest.Some? && o.before.Some? && o.after.Some? && o.dest.value != o.path
                 case Delete => o.before.Some?
    ensures CheckPayload(o).Fail? ==>
              CheckPayload(o).error == match o.op
                                       case Create => CreatePayloadMissing
                                       case ReplaceRange => ReplacePayloadMissing
                                       case Rename =>
                                         if o.dest.Some? && o.before.Some? && o.after.Some?
                                         then RenameDestinationInvalid else RenamePayloadMissing
                                       case Delete => DeletePayloadMissing
  {
  }

  /** The operation that a record describes. */
  predicate Describes(k: Codecs, v: map<Name, Json>, o: ChangeOperation) {
    && Get(v, KOp).JString? && ParseOp(Get(v, KOp).s) == Some(o.op)
    && PathField(k, Get(v, KPath), o.path)
    && (if Get(v, KDest) == JNull then o.dest == None else o.dest.Some? && PathField(k, Get(v, KDest), o.dest.value))
    && Sha(Get(v, KBefore)) == Success(o.before) && Sha(Get(v, KAfter)) == Success(o.after)
    && ReadContent(k, v) == Success(o.contentB64)
    && ReadRange(k, o.op, v) == Success(Range(o.encoding, o.lineMap, o.lineMapSha))
    && match o.op
       case Create => o.contentB64.Some? && o.after.Some?
       case ReplaceRange => o.contentB64.Some? && o.before.Some? && o.after.Some?
       case Rename => o.dest.Some? && o.before.Some? && o.after.Some? && o.dest.value != o.path
       case Delete => o.before.Some?
  }

  predicate PathField(k: Codecs, value: Json, path: string) {
    value.JString? && (exists c :: c in value.s && !k.isSpace(c)) && NormalPath(value.s) == Success(path)
  }

  /** A record reads as an operation exactly when it describes that operation. */
  lemma OperationReadsIff(k: Codecs, value: Json, o: ChangeOperation)
    ensures ReadOperation(k, value) == Success(o) <==> value.JObject? && Describes(k, value.fields, o)
  {
    hide NormalPath, ParseOp, Sha, ReadContent, ReadRange, CheckPayload;
    PayloadMeans(o);
  }

  /** What is no record, or has none of the four types, is refused before anything else is looked at. */
  lemma OperationRefused(k: Codecs, value: Json)
    ensures !value.JObject? ==> ReadOperation(k, value) == Failure(OperationInvalid)
    ensures value.JObject? && !(Get(value.fields, KOp).JString? && ParseOp(Get(value.fields, KOp).s).Some?) ==>
              ReadOperation(k, value) == Failure(OperationTypeInvalid)
  {
    hide ParseOp, NormalPath, Sha, ReadDest, ReadContent, ReadRange, CheckPayload;
  }

  // ---------- Changesets ----------

  predicate SomeInk(k: Codecs, s: string) {
    exists c :: c in s && !k.isSpace(c)
  }

  /** What the constructor asks for, the paths in their normalised form. */
  ghost predicate MayBuild(k: Codecs, c: ChangeSet, allowed: seq<string>) {
    && c.repository != "" && c.baseGeneration != "" && c.overlayGeneration != "" && c.attempt != ""
    && c.worktreeId != "" && c.worktreeId != "." && c.worktreeId != ".." && '/' !in c.worktreeId
    && c.leaseId != "" && c.fencingToken != ""
    && (forall p | p in c.allowedPaths :: SomeInk(k, p) && NormalPath(p).Success?)
    && (forall p | p in c.commands :: SomeInk(k, p))
    && c.allowedPaths != [] && c.operations != []
    && Sorted(StringLe, allowed) && NoRepeats(allowed)
    && (forall q :: q in allowed <==> exists p :: p in c.allowedPaths && NormalPath(p) == Success(q))
    && forall o | o in c.operations :: o.path in allowed && (o.dest == None || o.dest.value in allowed)
  }

  lemma {:induction false} NormalPathsIff(paths: seq<string>)
    ensures NormalPaths(paths).Success? <==> forall p | p in paths :: NormalPath(p).Success?
    ensures NormalPaths(paths).Success? ==>
              forall q :: q in NormalPaths(paths).value <==> exists p :: p in paths && NormalPath(p) == Success(q)
    ensures NormalPaths(paths).Success? ==> |NormalPaths(paths).value| == |paths|
  {
    hide NormalPath;
    if paths != [] {
      NormalPathsIff(paths[1..]);
      assert paths == [paths[0]] + paths[1..];
      if NormalPaths(paths).Success? {
        var rest := NormalPaths(paths[1..]).value;
        var first := NormalPath(paths[0]).value;
        assert NormalPaths(paths).value == [first] + rest;
        forall q ensures q in NormalPaths(paths).value <==> exists p :: p in paths && NormalPath(p) == Success(q) {
          if q in rest {
            var p :| p in paths[1..] && NormalPath(p) == Success(q);
            assert p in paths;
          }
          if p :| p in paths && NormalPath(p) == Success(q) {
            assert p == paths[0] || p in paths[1..];
          }
        }
      }
    }
  }

  /**
   The constructor returns its argument with the allowed paths normalised, sorted and without repetitions, exactly
   when nothing is missing and every path of every operation is among them.
   */
  lemma ConstructIff(k: Codecs, c: ChangeSet, d: ChangeSet)
    ensures Construct(k, c) == Success(d) <==> d == c.(allowedPaths := d.allowedPaths) && MayBuild(k, c, d.allowedPaths)
  {
    hide NormalPath, NormalPaths, SortedSet, Sorted, NoRepeats, StringLe;
    NormalPathsIff(c.allowedPaths);
    if NormalPaths(c.allowedPaths).Success? {
      var paths := NormalPaths(c.allowedPaths).value;
      SortedSetMeans(paths);
      if MayBuild(k, c, d.allowedPaths) {
        OneSortedList(SortedSet(paths), d.allowedPaths);
      }
      assert paths != [] ==> paths[0] in paths;
      assert SortedSet(paths) != [] ==> SortedSet(paths)[0] in SortedSet(paths);
    }
  }

  lemma ConstructedFrom(k: Codecs, d: ChangeSet)
    ensures forall c | Construct(k, c) == Success(d) :: c == d.(allowedPaths := c.allowedPaths)
  {
    hide NormalPaths, SortedSet;
  }

  /** The first reason why the constructor refuses its argument. */
  lemma ConstructFails(k: Codecs, c: ChangeSet)
    ensures Construct(k, c).Success? || Construct(k, c) == Failure(
              if "" in {c.repository, c.baseGeneration, c.overlayGeneration, c.attempt} then BindingMissing
              else if c.worktreeId in {"", ".", ".."} || '/' in c.worktreeId then WorktreeInvalid
              else if c.leaseId == "" || c.fencingToken == "" then AuthorityMissing
              else if exists p :: p in c.allowedPaths && !SomeInk(k, p) then AllowedPathsInvalid
              else if exists p :: p in c.commands && !SomeInk(k, p) then VerificationCommandsInvalid
              else if NormalPaths(c.allowedPaths).Failure? then NormalPaths(c.allowedPaths).error
              else if c.allowedPaths == [] then AllowedPathsMissing
              else if c.operations == [] then OperationsMissing
              else PathNotAllowed)
  {
    hide NormalPath, NormalPaths, SortedSet;
    NormalPathsIff(c.allowedPaths);
    if NormalPaths(c.allowedPaths).Success? {
      var paths := NormalPaths(c.allowedPaths).value;
      SortedSetMeans(paths);
      assert paths != [] ==> paths[0] in paths;
      assert SortedSet(paths) != [] ==> SortedSet(paths)[0] in SortedSet(paths);
    }
  }

  predicate TextField(k: Codecs, value: Json, text: string) {
    value == JString(text) && SomeInk(k, text)
  }

  lemma TextFieldIff(k: Codecs, value: Json, text: string, error: Error)
    ensures Text(k, value, error) == Success(text) <==> TextField(k, value, text)
  {
  }

  lemma TextFieldFails(k: Codecs, value: Json, error: Error)
    ensures Text(k, value, error).Success? || Text(k, value, error) == Failure(error)
  {
  }

  lemma {:induction false} TextsIff(k: Codecs, items: seq<Json>, error: Error, texts: seq<string>)
    ensures Texts(k, items, error) == Success(texts)
            <==> |items| == |texts| && forall i | 0 <= i < |items| :: TextField(k, items[i], texts[i])
    ensures Texts(k, items, error).Success? || Texts(k, items, error) == Failure(error)
  {
    hide Text, TextField;
    if items != [] {
      TextFieldFails(k, items[0], error);
      if texts != [] {
        TextFieldIff(k, items[0], texts[0], error);
        TextsIff(k, items[1..], error, texts[1..]);
        assert texts == [texts[0]] + texts[1..];
        if |items| == |texts| && forall i | 0 <= i < |items| :: TextField(k, items[i], texts[i]) {
          forall i | 0 <= i < |items[1..]| ensures TextField(k, items[1..][i], texts[1..][i]) {
            assert TextField(k, items[i + 1], texts[i + 1]);
          }
        }
      } else {
        TextsIff(k, items[1..], error, []);
      }
    }
  }

  lemma {:induction false} ReadOperationsIff(k: Codecs, items: seq<Json>, ops: seq<ChangeOperation>)
    ensures ReadOperations(k, items) == Success(ops)
            <==> |items| == |ops| && forall i | 0 <= i < |items| :: ReadOperation(k, items[i]) == Success(ops[i])
  {
    hide ReadOperation;
    if items != [] && ops != [] {
      ReadOperationsIff(k, items[1..], ops[1..]);
      assert ops == [ops[0]] + ops[1..];
      if |items| == |ops| && forall i | 0 <= i < |items| :: ReadOperation(k, items[i]) == Success(ops[i]) {
        forall i | 0 <= i < |items[1..]| ensures ReadOperation(k, items[1..][i]) == Success(ops[1..][i]) {
          assert ReadOperation(k, items[i + 1]) == Success(ops[i + 1]);
        }
      }
    }
  }

  /** The items of a list that may be missing. */
  function ItemsOf(v: map<Name, Json>, key: Name): Option<seq<Json>> {
    if key !in v then Some([]) else if v[key].JArray? then Some(v[key].items) else None
  }

  lemma ListFieldMeans(v: map<Name, Json>, key: Name, error: Error)
    ensures ListField(v, key, error)
            == if ItemsOf(v, key).Some? then Success(ItemsOf(v, key).value) else Failure(error)
  {
  }

  /** The paths a record allows: those it lists, and if it lists none, those of its operations. */
  ghost predicate Allows(k: Codecs, v: map<Name, Json>, ops: seq<ChangeOperation>, paths: seq<string>) {
    if Get(v, KAllowedPaths) == JNull || Get(v, KAllowedPaths) == JArray([]) then
      && Sorted(StringLe, paths) && NoRepeats(paths)
      && forall q :: q in paths <==> exists o :: o in ops && (o.path == q || o.dest == Some(q))
    else
      && Get(v, KAllowedPaths).JArray? && |Get(v, KAllowedPaths).items| == |paths|
      && forall i | 0 <= i < |paths| :: TextField(k, Get(v, KAllowedPaths).items[i], paths[i])
  }

  lemma {:induction false} AllPathsMembers(ops: seq<ChangeOperation>, q: string)
    ensures q in AllPaths(ops) <==> exists o :: o in ops && (o.path == q || o.dest == Some(q))
  {
    if ops != [] {
      AllPathsMembers(ops[1..], q);
      assert ops == [ops[0]] + ops[1..];
    }
  }

  lemma AllowsIff(k: Codecs, v: map<Name, Json>, ops: seq<ChangeOperation>, paths: seq<string>)
    ensures ReadAllowed(k, v, ops) == Success(paths) <==> Allows(k, v, ops, paths)
  {
    hide SortedSet, AllPaths, Sorted, NoRepeats, StringLe, Texts;
    var raw := Get(v, KAllowedPaths);
    if raw == JNull || raw == JArray([]) {
      forall q ensures q in AllPaths(ops) <==> exists o :: o in ops && (o.path == q || o.dest == Some(q)) {
        AllPathsMembers(ops, q);
      }
      SortedSetMeans(AllPaths(ops));
      if Allows(k, v, ops, paths) {
        OneSortedList(SortedSet(AllPaths(ops)), paths);
      }
    } else if raw.JArray? {
      TextsIff(k, raw.items, AllowedPathsInvalid, paths);
    }
  }

  /** The changeset that a record with these allowed paths describes, before the paths are normalised. */
  ghost predicate RecordOf(k: Codecs, v: map<Name, Json>, c: ChangeSet) {
    && Get(v, KSchema) == JString("simplicio.fast.binary-changeset/v1")
    && TextField(k, Get(v, KRepository), c.repository) && TextField(k, Get(v, KBaseGeneration), c.baseGeneration)
    && TextField(k, Get(v, KOverlayGeneration), c.overlayGeneration) && TextField(k, Get(v, KAttempt), c.attempt)
    && TextField(k, Get(v, KWorktreeId), c.worktreeId) && TextField(k, Get(v, KLeaseId), c.leaseId)
    && TextField(k, Get(v, KFencingToken), c.fencingToken)
    && ItemsOf(v, KOperations).Some? && |ItemsOf(v, KOperations).value| == |c.operations|
    && (forall i | 0 <= i < |c.operations| ::
          ReadOperation(k, ItemsOf(v, KOperations).value[i]) == Success(c.operations[i]))
    && ItemsOf(v, KVerificationCommands).Some? && |ItemsOf(v, KVerificationCommands).value| == |c.commands|
    && (forall i | 0 <= i < |c.commands| :: TextField(k, ItemsOf(v, KVerificationCommands).value[i], c.commands[i]))
    && Allows(k, v, c.operations, c.allowedPaths)
  }

  /**
   A record reads as a changeset exactly when it describes one that may be built, and names either no id or that of
   what is built.
   */
  lemma ChangeSetReadsIff(k: Codecs, v: map<Name, Json>, c: ChangeSet)
    ensures ReadChangeSet(k, v) == Success(c)
            <==> && (exists paths :: RecordOf(k, v, c.(allowedPaths := paths))
                                     && MayBuild(k, c.(allowedPaths := paths), c.allowedPaths))
                 && Get(v, KChangesetId) in {JNull, JString(ChangesetId(k, c))}
  {
    hide ReadOperations, ReadOperation, ReadAllowed, Texts, Construct, MayBuild, Allows, ChangesetId, SomeInk, Blank;
    if ReadChangeSet(k, v).Success? {
      var paths := ReadAllowed(k, v, ReadOperations(k, ItemsOf(v, KOperations).value).value).value;
      ReadsOn(k, v, c, paths);
    }
    forall paths | RecordOf(k, v, c.(allowedPaths := paths)) && MayBuild(k, c.(allowedPaths := paths), c.allowedPaths)
      ensures Get(v, KChangesetId) in {JNull, JString(ChangesetId(k, c))} ==> ReadChangeSet(k, v) == Success(c)
    {
      ReadOperationsIff(k, ItemsOf(v, KOperations).value, c.operations);
      AllowsIff(k, v, c.operations, paths);
      ReadsOn(k, v, c, paths);
    }
  }

  /** The same with the allowed paths as they are read. */
  lemma ReadsOn(k: Codecs, v: map<Name, Json>, c: ChangeSet, paths: seq<string>)
    requires ItemsOf(v, KOperations).Some? && ReadOperations(k, ItemsOf(v, KOperations).value).Success?
    requires ReadAllowed(k, v, ReadOperations(k, ItemsOf(v, KOperations).value).value) == Success(paths)
    ensures ReadChangeSet(k, v) == Success(c)
            <==> && RecordOf(k, v, c.(allowedPaths := paths))
                 && MayBuild(k, c.(allowedPaths := paths), c.allowedPaths)
                 && Get(v, KChangesetId) in {JNull, JString(ChangesetId(k, c))}
  {
    hide ReadOperations, ReadOperation, ReadAllowed, Texts, Construct, MayBuild, Allows, ChangesetId, Text, TextField,
         ListField, ItemsOf;
    ListFieldMeans(v, KOperations, OperationsInvalid);
    ListFieldMeans(v, KVerificationCommands, VerificationCommandsInvalid);
    ConstructIff(k, c.(allowedPaths := paths), c);
    ConstructedFrom(k, c);
    TextFieldIff(k, Get(v, KRepository), c.repository, BindingMissing);
    TextFieldIff(k, Get(v, KBaseGeneration), c.baseGeneration, BindingMissing);
    TextFieldIff(k, Get(v, KOverlayGeneration), c.overlayGeneration, BindingMissing);
    TextFieldIff(k, Get(v, KAttempt), c.attempt, BindingMissing);
    TextFieldIff(k, Get(v, KWorktreeId), c.worktreeId, WorktreeInvalid);
    TextFieldIff(k, Get(v, KLeaseId), c.leaseId, AuthorityMissing);
    TextFieldIff(k, Get(v, KFencingToken), c.fencingToken, AuthorityMissing);
    AllowsIff(k, v, c.operations, paths);
    ReadOperationsIff(k, ItemsOf(v, KOperations).value, c.operations);
    if ItemsOf(v, KVerificationCommands).Some? {
      TextsIff(k, ItemsOf(v, KVerificationCommands).value, VerificationCommandsInvalid, c.commands);
    }
  }
}
