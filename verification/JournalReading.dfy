/**
 What a read of the journal file means, spelled out frame by frame and without the reader: which files are read,
 which events they hold, which error the others raise, and how far the last hash binds the events.
 */
module JournalReading {
  import opened Bytes
  import opened ChangeSet
  import opened Journal
  import opened Json
  import opened Wrappers

  // ---------- The file, frame by frame ----------

  /** The big-endian length in front of a frame. */
  function Announced(raw: Bytes, at: nat): nat
    requires at + 4 <= |raw|
  {
    0x100_0000 * raw[at] as int + 0x1_0000 * raw[at + 1] as int + 0x100 * raw[at + 2] as int + raw[at + 3] as int
  }

  /** A length, as many bytes of text, and 32 bytes of digest lie between the two offsets. */
  predicate Framed(raw: Bytes, from: nat, to: nat) {
    from + 4 <= |raw| && to == from + 4 + Announced(raw, from) + 32 <= |raw|
  }

  /** The file ends before the frame does. */
  predicate CutShort(raw: Bytes, from: nat) {
    from + 4 > |raw| || from + 4 + Announced(raw, from) + 32 > |raw|
  }

  /** The event links to the one before it, the first one to 64 zeros. */
  predicate LinksBack(before: seq<Event>, event: Event) {
    && Get(event, KPrevHash).JString?
    && if before == [] then Get(event, KPrevHash) == JString(seq(64, _ => '0'))
       else Get(event, KPrevHash) == Get(before[|before| - 1], KRecordHash)
  }

  /** What an event's hash digests: the hash it links to, and its text without its own hash. */
  function Material(k: Codecs, event: Event): Bytes
    requires Get(event, KPrevHash).JString?
  {
    k.encodeUtf8(Get(event, KPrevHash).s) + k.dumps(JObject(event - {KRecordHash}))
  }

  /** The event's hash, and the digest behind its text, are those of its material. */
  predicate Hashed(k: Codecs, event: Event, digest: Bytes)
    requires Get(event, KPrevHash).JString?
  {
    && Get(event, KRecordHash) == JString(k.hex(k.sha256(Material(k, event))))
    && k.hex(digest) == k.hex(k.sha256(Material(k, event)))
  }

  predicate Owned(j: Binding, event: Event) {
    && Get(event, KWorktreeId) == JString(j.worktreeId)
    && Get(event, KLeaseId) == JString(j.leaseId)
    && Get(event, KFencingToken) == JString(j.fencingToken)
  }

  /** The text of the frame between the two offsets is this event. */
  predicate Spelled(k: Codecs, raw: Bytes, from: nat, to: nat, event: Event) {
    Framed(raw, from, to) && k.loads(raw[from + 4..to - 32]) == Some(JObject(event))
  }

  /** The frame between the two offsets holds the event, which follows `before` in the chain. */
  predicate Genuine(k: Codecs, raw: Bytes, from: nat, to: nat, before: seq<Event>, event: Event) {
    Spelled(k, raw, from, to, event) && LinksBack(before, event) && Hashed(k, event, raw[to - 32..to])
  }

  /** The events are those of the frames between the offsets, chained and owned, from behind the header on. */
  ghost predicate Frames(k: Codecs, j: Binding, raw: Bytes, at: seq<nat>, events: seq<Event>) {
    && |at| == |events| + 1 && at[0] == 9 <= |raw|
    && raw[..9] == [0x53, 0x46, 0x42, 0x4a, 0x52, 0x4e, 0x30, 0x31, 1]
    && forall i {:trigger events[i]} | 0 <= i < |events| ::
         Genuine(k, raw, at[i], at[i + 1], events[..i], events[i]) && Owned(j, events[i])
  }

  /** Behind the frames is nothing, or, in recovery, a frame that is cut short. */
  ghost predicate Ends(raw: Bytes, last: nat, recover: bool) {
    last == |raw| || (recover && last < |raw| && CutShort(raw, last))
  }

  /** What is wrong with the frame behind the events that were read. */
  ghost predicate Faulty(k: Codecs, j: Binding, raw: Bytes, last: nat, events: seq<Event>, recover: bool,
                         error: JournalError)
  {
    last < |raw|
    && if CutShort(raw, last) then !recover && error == TruncatedTail
       else
         var to := last + 4 + Announced(raw, last) + 32;
         var value := k.loads(raw[last + 4..to - 32]);
         if value.None? then error == EventInvalid
         else if !value.value.JObject? then error == AttributeError
         else if !Genuine(k, raw, last, to, events, value.value.fields) then error == ChainMismatch
         else error == AuthorityMismatch && !Owned(j, value.value.fields)
  }

  // ---------- One frame ----------

  lemma AnnouncedIsUnpacked(raw: Bytes, at: nat)
    requires at + 4 <= |raw|
    ensures UnpackU32(raw[at..][..4]) == Announced(raw, at)
  {
    var b := raw[at..][..4];
    assert b[0] == raw[at] && b[1] == raw[at + 1] && b[2] == raw[at + 2] && b[3] == raw[at + 3];
  }

  /** The hash of the last event is a text, as in every chain. */
  predicate EndsInHash(before: seq<Event>) {
    before == [] || Get(before[|before| - 1], KRecordHash).JString?
  }

  lemma LinkedMeans(k: Codecs, before: seq<Event>, event: Event, digest: Bytes)
    requires EndsInHash(before)
    ensures (k.hex(digest) == k.hex(ChainDigest(k, LastHash(before), event)) && Linked(k, LastHash(before), event))
            <==> LinksBack(before, event) && Hashed(k, event, digest)
  {
  }

  lemma OwnedMeans(j: Binding, event: Event)
    ensures Authorized(j, event) <==> Owned(j, event)
  {
  }

  /** The reader's view of the frame at the offset. */
  lemma HeadMeans(k: Codecs, j: Binding, raw: Bytes, last: nat, before: seq<Event>)
    requires last < |raw| && EndsInHash(before)
    ensures var head := HeadEvent(k, j, LastHash(before), raw[last..]);
            && (head.Success? ==>
                  var to := last + head.value.size;
                  Genuine(k, raw, last, to, before, head.value.event) && Owned(j, head.value.event))
            && (head.Failure? ==>
                  Faulty(k, j, raw, last, before, false, head.error)
                  && (head.error != TruncatedTail ==> Faulty(k, j, raw, last, before, true, head.error))
                  && (head.error == TruncatedTail <==> CutShort(raw, last)))
  {
    hide Linked, Authorized, LastHash, ChainDigest, LinksBack, Hashed, Owned, UnpackU32, EndsInHash;
    var rest := raw[last..];
    if last + 4 <= |raw| {
      AnnouncedIsUnpacked(raw, last);
      var end := 4 + Announced(raw, last);
      if end + 32 <= |rest| {
        assert rest[4..end] == raw[last + 4..last + end];
        assert rest[end..end + 32] == raw[last + end..last + end + 32];
        var value := k.loads(rest[4..end]);
        if value.Some? && value.value.JObject? {
          LinkedMeans(k, before, value.value.fields, rest[end..end + 32]);
          OwnedMeans(j, value.value.fields);
        }
      }
    }
  }

  lemma SameFrame(k: Codecs, raw: Bytes, last: nat, to: nat, before: seq<Event>, event: Event, j: Binding)
    requires last < |raw| && EndsInHash(before) && Genuine(k, raw, last, to, before, event) && Owned(j, event)
    ensures HeadEvent(k, j, LastHash(before), raw[last..]) == Success(Head(event, to - last))
  {
    hide HeadEvent, LastHash, LinksBack, Hashed, EndsInHash;
    HeadMeans(k, j, raw, last, before);
  }

  // ---------- The whole file ----------

  lemma NoFrames(k: Codecs, j: Binding, raw: Bytes)
    requires Magic() <= raw
    ensures Frames(k, j, raw, [9], [])
  {
  }

  lemma HeaderOfFrames(k: Codecs, j: Binding, raw: Bytes, at: seq<nat>, events: seq<Event>)
    requires Frames(k, j, raw, at, events)
    ensures Magic() <= raw
  {
    assert raw[..9] == Magic();
  }

  /** After every frame there is a last hash, and the offset behind it is in the file. */
  lemma FramesEnd(k: Codecs, j: Binding, raw: Bytes, at: seq<nat>, events: seq<Event>)
    requires Frames(k, j, raw, at, events)
    ensures |at| == |events| + 1 && at[|events|] <= |raw| && EndsInHash(events)
  {
    hide LinksBack;
    if events != [] {
      var n := |events| - 1;
      assert Genuine(k, raw, at[n], at[n + 1], events[..n], events[n]);
    }
  }

  lemma FramesMore(k: Codecs, j: Binding, raw: Bytes, at: seq<nat>, events: seq<Event>, to: nat, event: Event)
    requires Frames(k, j, raw, at, events) && Genuine(k, raw, at[|events|], to, events, event) && Owned(j, event)
    ensures Frames(k, j, raw, at + [to], events + [event])
  {
    hide Genuine, Owned;
    var a, all := at + [to], events + [event];
    forall i {:trigger all[i]} | 0 <= i < |all|
      ensures Genuine(k, raw, a[i], a[i + 1], all[..i], all[i]) && Owned(j, all[i])
    {
      if i < |events| {
        assert all[..i] == events[..i] && all[i] == events[i];
      } else {
        assert all[..i] == events;
      }
    }
  }

  lemma FramesLess(k: Codecs, j: Binding, raw: Bytes, at: seq<nat>, events: seq<Event>)
    requires Frames(k, j, raw, at, events) && events != []
    ensures var n := |events| - 1;
            && Frames(k, j, raw, at[..n + 1], events[..n])
            && Genuine(k, raw, at[n], at[n + 1], events[..n], events[n]) && Owned(j, events[n])
  {
    hide Genuine, Owned;
    var n := |events| - 1;
    var front := events[..n];
    forall i {:trigger front[i]} | 0 <= i < n
      ensures Genuine(k, raw, at[..n + 1][i], at[..n + 1][i + 1], front[..i], front[i]) && Owned(j, front[i])
    {
      assert front[..i] == events[..i] && front[i] == events[i];
    }
    assert events[n] == events[n];
  }

  /** Reading on from behind some frames: the frames that are read, and what is behind them. */
  lemma {:induction false} ReadOn(k: Codecs, j: Binding, raw: Bytes, recover: bool, at: seq<nat>, events: seq<Event>)
    returns (offsets: seq<nat>, found: seq<Event>)
    requires Frames(k, j, raw, at, events) && at[|events|] <= |raw|
    ensures Frames(k, j, raw, offsets, found)
    ensures var result := ReadFrom(k, j, events, raw[at[|events|]..], recover);
            && (result.Success? ==> result.value == found && Ends(raw, offsets[|found|], recover))
            && (result.Failure? ==> Faulty(k, j, raw, offsets[|found|], found, recover, result.error))
    decreases |raw| - at[|events|]
  {
    hide HeadEvent, LastHash, ReadFrom, Genuine, Owned, Faulty, CutShort, EndsInHash;
    var last := at[|events|];
    FramesEnd(k, j, raw, at, events);
    if last == |raw| {
      ReadEnd(k, j, events, raw, recover);
      offsets, found := at, events;
    } else {
      HeadMeans(k, j, raw, last, events);
      ReadStep(k, j, events, raw, last, recover);
      var head := HeadEvent(k, j, LastHash(events), raw[last..]);
      if head.Success? {
        FramesMore(k, j, raw, at, events, last + head.value.size, head.value.event);
        offsets, found := ReadOn(k, j, raw, recover, at + [last + head.value.size], events + [head.value.event]);
      } else {
        offsets, found := at, events;
      }
    }
  }

  /** Frames that are there are read. */
  lemma {:induction false} FramesAreRead(k: Codecs, j: Binding, raw: Bytes, recover: bool, at: seq<nat>,
                                         events: seq<Event>)
    requires Frames(k, j, raw, at, events) && at[|events|] <= |raw|
    ensures ReadFrom(k, j, [], raw[9..], recover) == ReadFrom(k, j, events, raw[at[|events|]..], recover)
    decreases |events|
  {
    hide HeadEvent, LastHash, ReadFrom, Genuine, Owned, EndsInHash;
    if events != [] {
      var n := |events| - 1;
      FramesLess(k, j, raw, at, events);
      FramesEnd(k, j, raw, at[..n + 1], events[..n]);
      FramesAreRead(k, j, raw, recover, at[..n + 1], events[..n]);
      GenuineInside(k, raw, at[n], at[n + 1], events[..n], events[n]);
      SameFrame(k, raw, at[n], at[n + 1], events[..n], events[n], j);
      ReadStep(k, j, events[..n], raw, at[n], recover);
      assert events[..n] + [events[n]] == events;
    }
  }

  lemma GenuineInside(k: Codecs, raw: Bytes, from: nat, to: nat, before: seq<Event>, event: Event)
    requires Genuine(k, raw, from, to, before, event)
    ensures from + 36 <= to <= |raw|
  {
    hide LinksBack, Hashed;
  }

  lemma EndsOrFaulty(k: Codecs, j: Binding, raw: Bytes, recover: bool, at: seq<nat>, events: seq<Event>)
    requires Frames(k, j, raw, at, events)
    ensures var last, result := at[|events|], ReadFile(k, j, Some(raw), recover);
            && (Ends(raw, last, recover) ==> result == Success(events))
            && forall error :: Faulty(k, j, raw, last, events, recover, error) ==> result == Failure(error)
  {
    hide HeadEvent, LastHash, ReadFrom, Genuine, Owned, CutShort, EndsInHash, Magic;
    var last := at[|events|];
    HeaderOfFrames(k, j, raw, at, events);
    FramesEnd(k, j, raw, at, events);
    FramesAreRead(k, j, raw, recover, at, events);
    if last == |raw| {
      ReadEnd(k, j, events, raw, recover);
    } else {
      HeadMeans(k, j, raw, last, events);
      ReadStep(k, j, events, raw, last, recover);
      NotGenuine(k, j, raw, last, events);
    }
  }

  lemma NotGenuine(k: Codecs, j: Binding, raw: Bytes, last: nat, events: seq<Event>)
    requires last < |raw| && EndsInHash(events)
    ensures HeadEvent(k, j, LastHash(events), raw[last..]).Success? ==>
              !CutShort(raw, last) && forall recover, error :: !Faulty(k, j, raw, last, events, recover, error)
  {
    hide HeadEvent, LastHash, LinksBack, Hashed, EndsInHash, Owned;
    HeadMeans(k, j, raw, last, events);
  }

  /**
   Which files are read, and as which events: exactly those that begin with the header, hold the frames of the
   events one after another, each chained to the one before it by its digest and owned by the journal's authority,
   and end there or, in recovery, in a frame that is cut short.
   */
  lemma ReadSucceedsIff(k: Codecs, j: Binding, raw: Bytes, recover: bool, events: seq<Event>)
    ensures ReadFile(k, j, Some(raw), recover) == Success(events)
            <==> exists at :: Frames(k, j, raw, at, events) && Ends(raw, at[|events|], recover)
  {
    hide ReadFrom, Ends, Magic, Genuine, Owned;
    if ReadFile(k, j, Some(raw), recover) == Success(events) {
      NoFrames(k, j, raw);
      var at, found := ReadOn(k, j, raw, recover, [9], []);
      assert Ends(raw, at[|events|], recover);
    } else if exists at :: Frames(k, j, raw, at, events) && Ends(raw, at[|events|], recover) {
      var at :| Frames(k, j, raw, at, events) && Ends(raw, at[|events|], recover);
      EndsOrFaulty(k, j, raw, recover, at, events);
      assert false;
    }
  }

  /**
   Which error the other files raise: that of the header, or of the first frame that is not as it should be, behind
   the frames that are.
   */
  lemma ReadFailsIff(k: Codecs, j: Binding, raw: Bytes, recover: bool, error: JournalError)
    ensures ReadFile(k, j, Some(raw), recover) == Failure(error)
            <==> if !([0x53, 0x46, 0x42, 0x4a, 0x52, 0x4e, 0x30, 0x31, 1] <= raw) then error == HeaderInvalid
                 else exists at, events ::
                        Frames(k, j, raw, at, events) && Faulty(k, j, raw, at[|events|], events, recover, error)
  {
    hide ReadFrom, Faulty, Genuine, Owned;
    if Magic() <= raw {
      NoFrames(k, j, raw);
      var at, found := ReadOn(k, j, raw, recover, [9], []);
      assert Frames(k, j, raw, at, found) && at[|found|] == at[|found|];
      if exists a, e :: Frames(k, j, raw, a, e) && Faulty(k, j, raw, a[|e|], e, recover, error) {
        var a, e :| Frames(k, j, raw, a, e) && Faulty(k, j, raw, a[|e|], e, recover, error);
        EndsOrFaulty(k, j, raw, recover, a, e);
      }
    }
  }

  // ---------- How far the last hash binds the events ----------

  /** The texts of digests, and the 64 zeros, take one number of bytes in UTF-8. */
  ghost predicate HashesHaveOneWidth(k: Codecs) {
    forall x :: |k.encodeUtf8(k.hex(k.sha256(x)))| == |k.encodeUtf8(seq(64, _ => '0'))|
  }

  /** Every event links back and carries the hash of its material. */
  ghost predicate HashChain(k: Codecs, events: seq<Event>) {
    forall i {:trigger events[i]} | 0 <= i < |events| ::
      LinksBack(events[..i], events[i])
      && Get(events[i], KRecordHash) == JString(k.hex(k.sha256(Material(k, events[i]))))
  }

  /** Two different materials of the events have one digest. */
  ghost predicate Collide(k: Codecs, a: seq<Event>, b: seq<Event>) {
    exists x, y | x in a && y in b ::
      && Get(x, KPrevHash).JString? && Get(y, KPrevHash).JString? && Material(k, x) != Material(k, y)
      && k.hex(k.sha256(Material(k, x))) == k.hex(k.sha256(Material(k, y)))
  }

  lemma ReadIsHashChain(k: Codecs, j: Binding, raw: Bytes, recover: bool)
    requires ReadFile(k, j, Some(raw), recover).Success?
    ensures HashChain(k, ReadFile(k, j, Some(raw), recover).value)
  {
    hide ReadFile, Ends, Owned, LinksBack;
    var events := ReadFile(k, j, Some(raw), recover).value;
    ReadSucceedsIff(k, j, raw, recover, events);
    var at :| Frames(k, j, raw, at, events) && Ends(raw, at[|events|], recover);
    forall i {:trigger events[i]} | 0 <= i < |events|
      ensures LinksBack(events[..i], events[i])
      ensures Get(events[i], KPrevHash).JString?
              && Get(events[i], KRecordHash) == JString(k.hex(k.sha256(Material(k, events[i]))))
    {
      GenuineLinks(k, raw, at[i], at[i + 1], events[..i], events[i]);
    }
  }

  lemma GenuineLinks(k: Codecs, raw: Bytes, from: nat, to: nat, before: seq<Event>, event: Event)
    requires Genuine(k, raw, from, to, before, event)
    ensures LinksBack(before, event) && Get(event, KPrevHash).JString?
    ensures Get(event, KRecordHash) == JString(k.hex(k.sha256(Material(k, event))))
  {
    hide Spelled;
  }

  /** The hash that the next event would link to. */
  function TipOf(events: seq<Event>): Json {
    if events == [] then JString(seq(64, _ => '0')) else Get(events[|events| - 1], KRecordHash)
  }

  /** The digest of an event's material is 64 zeros. */
  ghost predicate HitsZeros(k: Codecs, events: seq<Event>) {
    exists x | x in events ::
      Get(x, KPrevHash).JString? && k.hex(k.sha256(Material(k, x))) == seq(64, _ => '0')
  }

  lemma ChainAt(k: Codecs, events: seq<Event>, n: nat)
    requires HashChain(k, events) && 0 < n <= |events|
    ensures var e := events[n - 1];
            && e in events
            && Get(e, KPrevHash).JString? && Get(e, KPrevHash) == TipOf(events[..n - 1])
            && Get(e, KRecordHash) == JString(k.hex(k.sha256(Material(k, e)))) == TipOf(events[..n])
  {
    assert events[n - 1] == events[n - 1];
  }

  lemma TipWidth(k: Codecs, events: seq<Event>, n: nat)
    requires HashChain(k, events) && HashesHaveOneWidth(k) && n <= |events|
    ensures TipOf(events[..n]).JString? && |k.encodeUtf8(TipOf(events[..n]).s)| == |k.encodeUtf8(seq(64, _ => '0'))|
  {
    hide HashChain, Material;
    if n > 0 {
      ChainAt(k, events, n);
    }
  }

  lemma SameMaterial(k: Codecs, x: Event, y: Event)
    requires Lawful(k) && Get(x, KPrevHash).JString? && Get(y, KPrevHash).JString?
    requires |k.encodeUtf8(Get(x, KPrevHash).s)| == |k.encodeUtf8(Get(y, KPrevHash).s)|
    requires Material(k, x) == Material(k, y)
    requires Get(x, KRecordHash).JString? && Get(x, KRecordHash) == Get(y, KRecordHash)
    ensures x == y
  {
    var n := |k.encodeUtf8(Get(x, KPrevHash).s)|;
    assert Material(k, x)[n..] == k.dumps(JObject(x - {KRecordHash}));
    assert Material(k, y)[n..] == k.dumps(JObject(y - {KRecordHash}));
    LoadsDumps(k, JObject(x - {KRecordHash}), JObject(y - {KRecordHash}));
    assert x - {KRecordHash} == y - {KRecordHash};
    Reassembled(x);
    Reassembled(y);
  }

  lemma LoadsDumps(k: Codecs, v: Json, w: Json)
    requires Lawful(k) && k.dumps(v) == k.dumps(w)
    ensures v == w
  {
    assert k.loads(k.dumps(v)) == Some(v) && k.loads(k.dumps(w)) == Some(w);
  }

  lemma Reassembled(x: Event)
    requires KRecordHash in x
    ensures x == (x - {KRecordHash})[KRecordHash := x[KRecordHash]]
  {
  }

  lemma {:induction false} TipBinds(k: Codecs, a: seq<Event>, b: seq<Event>, m: nat, n: nat)
    requires Lawful(k) && HashesHaveOneWidth(k) && HashChain(k, a) && HashChain(k, b) && m <= |a| && n <= |b|
    requires TipOf(a[..m]) == TipOf(b[..n])
    ensures a[..m] == b[..n] || Collide(k, a, b) || (m != n && (HitsZeros(k, a) || HitsZeros(k, b)))
    decreases m
  {
    hide Lawful, HashesHaveOneWidth, HashChain, Material, TipOf;
    if m == 0 && n > 0 {
      ChainAt(k, b, n);
      NoTip();
      assert a[..0] == [];
    } else if m > 0 && n == 0 {
      ChainAt(k, a, m);
      NoTip();
      assert b[..0] == [];
    } else if m > 0 {
      ChainAt(k, a, m);
      ChainAt(k, b, n);
      var x, y := a[m - 1], b[n - 1];
      if Material(k, x) == Material(k, y) {
        TipWidth(k, a, m - 1);
        TipWidth(k, b, n - 1);
        SameMaterial(k, x, y);
        TipBinds(k, a, b, m - 1, n - 1);
        assert a[..m] == a[..m - 1] + [x] && b[..n] == b[..n - 1] + [y];
      }
    }
  }

  lemma NoTip()
    ensures TipOf([]) == JString(seq(64, _ => '0'))
  {
  }

  /**
   The last hash binds the whole history: two files that are read with the same last record hash hold the same
   events, or two of their events' materials collide in their digest, or (only for different lengths) the digest of
   one is 64 zeros.
   */
  lemma LastHashBinds(k: Codecs, i: Binding, j: Binding, a: Bytes, b: Bytes, recover: bool, recoverToo: bool)
    requires Lawful(k) && HashesHaveOneWidth(k)
    requires ReadFile(k, i, Some(a), recover).Success? && ReadFile(k, j, Some(b), recoverToo).Success?
    requires TipOf(ReadFile(k, i, Some(a), recover).value) == TipOf(ReadFile(k, j, Some(b), recoverToo).value)
    ensures var x, y := ReadFile(k, i, Some(a), recover).value, ReadFile(k, j, Some(b), recoverToo).value;
            x == y || Collide(k, x, y) || (|x| != |y| && (HitsZeros(k, x) || HitsZeros(k, y)))
  {
    hide Lawful, HashesHaveOneWidth, HashChain, Material, TipOf, ReadFile, Collide, HitsZeros;
    var x, y := ReadFile(k, i, Some(a), recover).value, ReadFile(k, j, Some(b), recoverToo).value;
    ReadIsHashChain(k, i, a, recover);
    ReadIsHashChain(k, j, b, recoverToo);
    assert x[..|x|] == x && y[..|y|] == y;
    TipBinds(k, x, y, |x|, |y|);
  }
}
