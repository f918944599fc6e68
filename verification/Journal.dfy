/** The append-only, hash-chained journal file, and its recovery from a torn tail. */
module Journal {
  import opened Bytes
  import opened ChangeSet
  import ChangeSetCodec
  import opened Json
  import opened Wrappers

  type Event = map<Name, Json>

  datatype JournalState = Sealed | Applied | AlreadyDone | Unknown | Rejected | Reconciled

  function StateName(s: JournalState): string {
    match s
    case Sealed => "sealed"
    case Applied => "applied"
    case AlreadyDone => "idempotent"
    case Unknown => "unknown"
    case Rejected => "rejected"
    case Reconciled => "reconciled"
  }

  lemma StateNamesDiffer(a: JournalState, b: JournalState)
    ensures StateName(a) == StateName(b) ==> a == b
  {
    assert |StateName(Sealed)| == 6 && |StateName(Applied)| == 7 && |StateName(AlreadyDone)| == 10;
    assert |StateName(Unknown)| == 7 && |StateName(Rejected)| == 8 && |StateName(Reconciled)| == 10;
    assert StateName(Applied)[0] == 'a' && StateName(Unknown)[0] == 'u';
    assert StateName(AlreadyDone)[0] == 'i' && StateName(Reconciled)[0] == 'r';
  }

  datatype JournalError =
    | HeaderInvalid | TruncatedTail | EventInvalid | ChainMismatch | AuthorityMismatch | AttributeError
    | CrossWorktree | LeaseMismatch | FenceMismatch | PackError | WorktreeRefused

  /** The authority a journal is bound to. */
  datatype Binding = Binding(worktreeId: string, leaseId: string, fencingToken: string)

  const HEADER_SIZE := 9

  function Magic(): (m: Bytes)
    ensures |m| == HEADER_SIZE
  {
    [0x53, 0x46, 0x42, 0x4a, 0x52, 0x4e, 0x30, 0x31, 1]
  }

  function ZeroHash(): string {
    seq(64, _ => '0')
  }

  // ---------- Events and their frames ----------

  /** The record hash of the last event, which the next one links to. */
  function LastHash(events: seq<Event>): string {
    if events == [] then ZeroHash()
    else
      var h := Get(events[|events| - 1], KRecordHash);
      if h.JString? then h.s else ""
  }

  /** The chained digest: previous hash, then the event without its own hash. */
  function ChainDigest(k: Codecs, previous: string, event: Event): Bytes {
    k.sha256(k.encodeUtf8(previous) + k.dumps(JObject(event - {KRecordHash})))
  }

  function Payload(k: Codecs, event: Event): Bytes {
    k.dumps(JObject(event))
  }

  function EventFrame(k: Codecs, previous: string, event: Event): Bytes
    requires |Payload(k, event)| < MAX_U32
  {
    PackU32(|Payload(k, event)|) + Payload(k, event) + ChainDigest(k, previous, event)
  }

  /** What the reader demands of an event that follows `previous`. */
  predicate Linked(k: Codecs, previous: string, event: Event) {
    Get(event, KRecordHash) == JString(k.hex(ChainDigest(k, previous, event)))
    && Get(event, KPrevHash) == JString(previous)
  }

  predicate Authorized(j: Binding, event: Event) {
    Get(event, KWorktreeId) == JString(j.worktreeId) && Get(event, KLeaseId) == JString(j.leaseId)
    && Get(event, KFencingToken) == JString(j.fencingToken)
  }

  // ---------- Reading ----------

  datatype Head = Head(event: Event, size: nat)

  /** The event at the head of `rest`. */
  function HeadEvent(k: Codecs, j: Binding, previous: string, rest: Bytes): (r: Result<Head, JournalError>)
    ensures r.Success? ==> 36 <= r.value.size <= |rest|
  {
    if |rest| < 4 then Failure(TruncatedTail)
    else
      var end := 4 + UnpackU32(rest[..4]);
      if end + 32 > |rest| then Failure(TruncatedTail)
      else
        var value := k.loads(rest[4..end]);
        if value.None? then Failure(EventInvalid)
        else if !value.value.JObject? then Failure(AttributeError)
        else
          var event := value.value.fields;
          if k.hex(rest[end..end + 32]) != k.hex(ChainDigest(k, previous, event)) || !Linked(k, previous, event) then
            Failure(ChainMismatch)
          else if !Authorized(j, event) then Failure(AuthorityMismatch)
          else Success(Head(event, end + 32))
  }

  function ReadFrom(k: Codecs, j: Binding, events: seq<Event>, rest: Bytes, recover: bool)
    : Result<seq<Event>, JournalError>
    decreases |rest|
  {
    if rest == [] then Success(events)
    else
      var head := HeadEvent(k, j, LastHash(events), rest);
      if head == Failure(TruncatedTail) && recover then Success(events)
      else if head.Failure? then Failure(head.error)
      else ReadFrom(k, j, events + [head.value.event], rest[head.value.size..], recover)
  }

  /** `read`; an absent file has no events. */
  function ReadFile(k: Codecs, j: Binding, file: Option<Bytes>, recover: bool): Result<seq<Event>, JournalError> {
    if file.None? then Success([])
    else if !(Magic() <= file.value) then Failure(HeaderInvalid)
    else ReadFrom(k, j, [], file.value[HEADER_SIZE..], recover)
  }

  // ---------- What appending builds ----------

  /** The frames of `events`, which follow `prior`. */
  function FramesAfter(k: Codecs, prior: seq<Event>, events: seq<Event>): Bytes
    requires forall e | e in events :: |Payload(k, e)| < MAX_U32
    decreases |events|
  {
    if events == [] then []
    else EventFrame(k, LastHash(prior), events[0]) + FramesAfter(k, prior + [events[0]], events[1..])
  }

  ghost predicate Chained(k: Codecs, j: Binding, prior: seq<Event>, events: seq<Event>)
    decreases |events|
  {
    events == []
    || (|Payload(k, events[0])| < MAX_U32 && Linked(k, LastHash(prior), events[0]) && Authorized(j, events[0])
        && Chained(k, j, prior + [events[0]], events[1..]))
  }

  lemma {:induction false} ChainedFits(k: Codecs, j: Binding, prior: seq<Event>, events: seq<Event>)
    requires Chained(k, j, prior, events)
    ensures forall e | e in events :: |Payload(k, e)| < MAX_U32
    decreases |events|
  {
    hide Linked, Authorized, Payload;
    if events != [] {
      ChainedFits(k, j, prior + [events[0]], events[1..]);
      assert events == [events[0]] + events[1..];
    }
  }

  lemma HeadOfFrame(k: Codecs, j: Binding, previous: string, event: Event, rest: Bytes)
    requires Lawful(k) && |Payload(k, event)| < MAX_U32 && Linked(k, previous, event) && Authorized(j, event)
    ensures var frame := EventFrame(k, previous, event);
            && HeadEvent(k, j, previous, frame + rest) == Success(Head(event, |frame|))
            && (frame + rest)[|frame|..] == rest
  {
    hide Linked, Authorized, ChainDigest;
    var payload, frame := Payload(k, event), EventFrame(k, previous, event);
    var all, end := frame + rest, 4 + |payload|;
    DigestSize(k, previous, event);
    U32RoundTrip(|payload|);
    assert all[..4] == PackU32(|payload|);
    assert all[4..end] == payload;
    assert all[end..end + 32] == ChainDigest(k, previous, event);
  }

  lemma DigestSize(k: Codecs, previous: string, event: Event)
    requires Lawful(k)
    ensures |ChainDigest(k, previous, event)| == 32
  {
  }

  /** A frame cut short is seen as a truncated tail, wherever the cut is. */
  lemma HeadOfTornFrame(k: Codecs, j: Binding, previous: string, event: Event, n: nat)
    requires Lawful(k) && |Payload(k, event)| < MAX_U32 && n < |EventFrame(k, previous, event)|
    ensures HeadEvent(k, j, previous, EventFrame(k, previous, event)[..n]) == Failure(TruncatedTail)
  {
    hide ChainDigest;
    var payload, frame := Payload(k, event), EventFrame(k, previous, event);
    DigestSize(k, previous, event);
    U32RoundTrip(|payload|);
    if n >= 4 {
      assert frame[..n][..4] == PackU32(|payload|);
    }
  }

  /** How many whole frames fit in the first `n` bytes. */
  ghost function Complete(k: Codecs, prior: seq<Event>, events: seq<Event>, n: nat): (m: nat)
    requires forall e | e in events :: |Payload(k, e)| < MAX_U32
    ensures m <= |events|
    decreases |events|
  {
    if events == [] then 0
    else
      var size := |EventFrame(k, LastHash(prior), events[0])|;
      if n < size then 0 else 1 + Complete(k, prior + [events[0]], events[1..], n - size)
  }

  /** `Complete` is the longest prefix of events whose frames all lie within the first `n` bytes. */
  lemma {:induction false} CompleteIsLongest(k: Codecs, prior: seq<Event>, events: seq<Event>, n: nat)
    requires forall e | e in events :: |Payload(k, e)| < MAX_U32
    requires n <= |FramesAfter(k, prior, events)|
    ensures var m := Complete(k, prior, events, n);
            && |FramesAfter(k, prior, events[..m])| <= n
            && FramesAfter(k, prior, events[..m]) <= FramesAfter(k, prior, events)
            && (m < |events| ==> n < |FramesAfter(k, prior, events[..m + 1])|)
    decreases |events|
  {
    hide EventFrame, Payload, LastHash;
    var m := Complete(k, prior, events, n);
    if events != [] {
      var size := |EventFrame(k, LastHash(prior), events[0])|;
      if n >= size {
        CompleteIsLongest(k, prior + [events[0]], events[1..], n - size);
        assert events[..m][1..] == events[1..][..m - 1];
        if m < |events| {
          assert events[..m + 1][1..] == events[1..][..m];
        }
      } else {
        assert events[..1][1..] == [];
        assert events[..0] == [];
      }
    } else {
      assert events[..m] == [];
    }
  }

  /**
   Reading a file cut after `n` bytes of frames: in recovery the whole frames are read; the strict reader
   succeeds only when the cut falls between two frames.
   */
  lemma {:induction false} ReadTorn(k: Codecs, j: Binding, prior: seq<Event>, events: seq<Event>, n: nat)
    requires Lawful(k) && Chained(k, j, prior, events)
    requires forall e | e in events :: |Payload(k, e)| < MAX_U32
    requires n <= |FramesAfter(k, prior, events)|
    ensures var cut, m := FramesAfter(k, prior, events)[..n], Complete(k, prior, events, n);
            && ReadFrom(k, j, prior, cut, true) == Success(prior + events[..m])
            && ReadFrom(k, j, prior, cut, false)
               == if n == |FramesAfter(k, prior, events[..m])| then Success(prior + events[..m])
                  else Failure(TruncatedTail)
    decreases |events|
  {
    hide HeadEvent, EventFrame, Payload, LastHash, Linked, Authorized, Lawful, ReadFrom;
    if events == [] {
      NothingTorn(k, j, prior, n);
    } else if n < |EventFrame(k, LastHash(prior), events[0])| {
      TornFirst(k, j, prior, events, n);
    } else {
      var size := |EventFrame(k, LastHash(prior), events[0])|;
      ReadTorn(k, j, prior + [events[0]], events[1..], n - size);
      TornBehind(k, j, prior, events, n);
    }
  }

  lemma NothingTorn(k: Codecs, j: Binding, prior: seq<Event>, n: nat)
    requires n == 0
    ensures ReadFrom(k, j, prior, FramesAfter(k, prior, [])[..n], true) == Success(prior + [])
    ensures ReadFrom(k, j, prior, FramesAfter(k, prior, [])[..n], false) == Success(prior + [])
  {
    assert prior + [] == prior;
  }

  /** The cut falls into the first frame. */
  lemma TornFirst(k: Codecs, j: Binding, prior: seq<Event>, events: seq<Event>, n: nat)
    requires Lawful(k) && events != [] && Chained(k, j, prior, events)
    requires forall e | e in events :: |Payload(k, e)| < MAX_U32
    requires n < |EventFrame(k, LastHash(prior), events[0])|
    ensures n <= |FramesAfter(k, prior, events)| && Complete(k, prior, events, n) == 0
    ensures var cut := FramesAfter(k, prior, events)[..n];
            && ReadFrom(k, j, prior, cut, true) == Success(prior + events[..0])
            && ReadFrom(k, j, prior, cut, false)
               == if n == |FramesAfter(k, prior, events[..0])| then Success(prior + events[..0])
                  else Failure(TruncatedTail)
  {
    hide HeadEvent, EventFrame, Payload, LastHash, Linked, Authorized, Lawful, Chained;
    var frame := EventFrame(k, LastHash(prior), events[0]);
    assert FramesAfter(k, prior, events)[..n] == frame[..n];
    assert |Payload(k, events[0])| < MAX_U32;
    HeadOfTornFrame(k, j, LastHash(prior), events[0], n);
    assert prior + events[..0] == prior && FramesAfter(k, prior, events[..0]) == [];
  }

  /** The cut falls behind the first frame, which is read; the rest is as it is behind that event. */
  lemma TornBehind(k: Codecs, j: Binding, prior: seq<Event>, events: seq<Event>, n: nat)
    requires Lawful(k) && events != [] && Chained(k, j, prior, events)
    requires forall e | e in events :: |Payload(k, e)| < MAX_U32
    requires |EventFrame(k, LastHash(prior), events[0])| <= n <= |FramesAfter(k, prior, events)|
    ensures var size, next := |EventFrame(k, LastHash(prior), events[0])|, prior + [events[0]];
            var m := Complete(k, next, events[1..], n - size);
            && n - size <= |FramesAfter(k, next, events[1..])| && Complete(k, prior, events, n) == m + 1
            && next + events[1..][..m] == prior + events[..m + 1]
            && |FramesAfter(k, prior, events[..m + 1])| == size + |FramesAfter(k, next, events[1..][..m])|
            && forall recover ::
                 ReadFrom(k, j, prior, FramesAfter(k, prior, events)[..n], recover)
                 == ReadFrom(k, j, next, FramesAfter(k, next, events[1..])[..n - size], recover)
  {
    hide HeadEvent, EventFrame, Payload, LastHash, Linked, Authorized, Lawful;
    var frame, next := EventFrame(k, LastHash(prior), events[0]), prior + [events[0]];
    var rest := FramesAfter(k, next, events[1..]);
    var m := Complete(k, next, events[1..], n - |frame|);
    assert FramesAfter(k, prior, events)[..n] == frame + rest[..n - |frame|];
    HeadOfFrame(k, j, LastHash(prior), events[0], rest[..n - |frame|]);
    FrameSize(k, LastHash(prior), events[0]);
    assert events[..m + 1][1..] == events[1..][..m];
  }

  lemma FrameSize(k: Codecs, previous: string, event: Event)
    requires Lawful(k) && |Payload(k, event)| < MAX_U32
    ensures |EventFrame(k, previous, event)| == 36 + |Payload(k, event)|
  {
    DigestSize(k, previous, event);
  }

  /** A file cut after `n` bytes is readable in recovery exactly when the cut spares the 9-byte header. */
  lemma RecoverableIffHeader(k: Codecs, j: Binding, events: seq<Event>, n: nat)
    requires Lawful(k) && Chained(k, j, [], events)
    requires forall e | e in events :: |Payload(k, e)| < MAX_U32
    requires n <= |Magic() + FramesAfter(k, [], events)|
    ensures var cut := (Magic() + FramesAfter(k, [], events))[..n];
            && (ReadFile(k, j, Some(cut), true).Success? <==> n >= HEADER_SIZE)
            && (n < HEADER_SIZE ==> ReadFile(k, j, Some(cut), false) == Failure(HeaderInvalid))
  {
    hide Magic, ReadFrom, Lawful, Chained, FramesAfter, Payload;
    var frames := FramesAfter(k, [], events);
    if n >= HEADER_SIZE {
      assert (Magic() + frames)[..n] == Magic() + frames[..n - HEADER_SIZE];
      assert (Magic() + frames[..n - HEADER_SIZE])[HEADER_SIZE..] == frames[..n - HEADER_SIZE];
      ReadTorn(k, j, [], events, n - HEADER_SIZE);
    }
  }

  lemma {:induction false} FramesSnoc(k: Codecs, prior: seq<Event>, events: seq<Event>, e: Event)
    requires (forall x | x in events :: |Payload(k, x)| < MAX_U32) && |Payload(k, e)| < MAX_U32
    ensures FramesAfter(k, prior, events + [e])
            == FramesAfter(k, prior, events) + EventFrame(k, LastHash(prior + events), e)
    decreases |events|
  {
    hide EventFrame, Payload, LastHash;
    var all := events + [e];
    if events == [] {
      assert prior + events == prior && all == [e] && [e][1..] == [];
      assert FramesAfter(k, prior + [e], []) == [];
    } else {
      assert all[1..] == events[1..] + [e];
      FramesSnoc(k, prior + [events[0]], events[1..], e);
      assert prior + [events[0]] + events[1..] == prior + events;
    }
  }

  lemma {:induction false} ChainedSnoc(k: Codecs, j: Binding, prior: seq<Event>, events: seq<Event>, e: Event)
    requires Chained(k, j, prior, events)
    requires |Payload(k, e)| < MAX_U32 && Linked(k, LastHash(prior + events), e) && Authorized(j, e)
    ensures Chained(k, j, prior, events + [e])
    decreases |events|
  {
    hide Payload, LastHash, Linked, Authorized;
    var all := events + [e];
    if events == [] {
      assert prior + events == prior && all[1..] == [];
    } else {
      assert all[1..] == events[1..] + [e];
      assert prior + [events[0]] + events[1..] == prior + events;
      ChainedSnoc(k, j, prior + [events[0]], events[1..], e);
    }
  }

  lemma {:induction false} ChainedPrefix(k: Codecs, j: Binding, prior: seq<Event>, events: seq<Event>, m: nat)
    requires Chained(k, j, prior, events) && m <= |events|
    ensures Chained(k, j, prior, events[..m])
    decreases |events|
  {
    hide Payload, LastHash, Linked, Authorized;
    if m > 0 {
      assert events[..m][1..] == events[1..][..m - 1];
      ChainedPrefix(k, j, prior + [events[0]], events[1..], m - 1);
    }
  }

  // ---------- Appending ----------

  function JournalSchema(): string {
    "simplicio.fast.binary-changeset-journal/v1"
  }

  /** The event without its record hash. */
  function Material(k: Codecs, j: Binding, events: seq<Event>, id: string, binarySha: string, state: JournalState,
                    evidence: map<Name, Json>): Event {
    map[KSchema := JString(JournalSchema()), KSequence := JInt(|events| + 1), KChangesetId := JString(id),
        KBinarySha := JString(binarySha), KWorktreeId := JString(j.worktreeId), KLeaseId := JString(j.leaseId),
        KFencingToken := JString(j.fencingToken), KState := JString(StateName(state)),
        KPrevHash := JString(LastHash(events)), KEvidence := JObject(evidence)]
  }

  function NewEvent(k: Codecs, j: Binding, events: seq<Event>, id: string, binarySha: string, state: JournalState,
                    evidence: map<Name, Json>): Event {
    var material := Material(k, j, events, id, binarySha, state, evidence);
    material[KRecordHash := JString(k.hex(ChainDigest(k, LastHash(events), material)))]
  }

  /** What a log entry says about its event. */
  datatype Entry = Entry(id: string, state: JournalState)

  predicate Tagged(event: Event, entry: Entry) {
    Get(event, KChangesetId) == JString(entry.id) && Get(event, KState) == JString(StateName(entry.state))
  }

  lemma NewEventFacts(k: Codecs, j: Binding, events: seq<Event>, id: string, binarySha: string, state: JournalState,
                      evidence: map<Name, Json>)
    ensures var e := NewEvent(k, j, events, id, binarySha, state, evidence);
            && Linked(k, LastHash(events), e) && Authorized(j, e) && Tagged(e, Entry(id, state))
            && Get(e, KSequence) == JInt(|events| + 1)
  {
    hide LastHash, StateName, JournalSchema;
    var material := Material(k, j, events, id, binarySha, state, evidence);
    var e := NewEvent(k, j, events, id, binarySha, state, evidence);
    assert e - {KRecordHash} == material == material - {KRecordHash};
  }

  /** A new event in full: its number, what it says about which changeset and binary, for whom, and its evidence. */
  ghost predicate Records(j: Binding, e: Event, number: nat, id: string, binarySha: string, state: JournalState,
                          evidence: map<Name, Json>)
  {
    && e.Keys == {KSchema, KSequence, KChangesetId, KBinarySha, KWorktreeId, KLeaseId, KFencingToken, KState, KPrevHash,
                  KEvidence, KRecordHash}
    && e[KSchema] == JString(JournalSchema()) && e[KSequence] == JInt(number)
    && e[KChangesetId] == JString(id) && e[KBinarySha] == JString(binarySha)
    && e[KWorktreeId] == JString(j.worktreeId) && e[KLeaseId] == JString(j.leaseId)
    && e[KFencingToken] == JString(j.fencingToken)
    && e[KState] == JString(StateName(state)) && e[KEvidence] == JObject(evidence)
  }

  lemma NewEventRecords(k: Codecs, j: Binding, events: seq<Event>, id: string, binarySha: string, state: JournalState,
                        evidence: map<Name, Json>)
    ensures Records(j, NewEvent(k, j, events, id, binarySha, state, evidence), |events| + 1, id, binarySha, state,
                    evidence)
  {
    hide LastHash, StateName, JournalSchema, ChainDigest;
  }

  lemma TaggedOnce(event: Event, entry: Entry, id: string, state: JournalState)
    requires Tagged(event, entry)
    ensures Tagged(event, Entry(id, state)) <==> entry == Entry(id, state)
  {
    hide StateName;
    StateNamesDiffer(entry.state, state);
  }

  lemma ReadStep(k: Codecs, j: Binding, found: seq<Event>, raw: Bytes, offset: nat, recover: bool)
    requires offset < |raw|
    ensures var head := HeadEvent(k, j, LastHash(found), raw[offset..]);
            var all := ReadFrom(k, j, found, raw[offset..], recover);
            if head.Success?
            then all == ReadFrom(k, j, found + [head.value.event], raw[offset + head.value.size..], recover)
            else all == if head.error == TruncatedTail && recover then Success(found) else Failure(head.error)
  {
    hide HeadEvent, LastHash;
    var head := HeadEvent(k, j, LastHash(found), raw[offset..]);
    if head.Success? {
      assert raw[offset..][head.value.size..] == raw[offset + head.value.size..];
    }
  }

  lemma ReadEnd(k: Codecs, j: Binding, found: seq<Event>, raw: Bytes, recover: bool)
    ensures ReadFrom(k, j, found, raw[|raw|..], recover) == Success(found)
  {
  }

  /** The loop of `read`, with its moving offset. */
  method ReadEvents(k: Codecs, j: Binding, raw: Bytes, recover: bool) returns (result: Result<seq<Event>, JournalError>)
    requires |raw| >= HEADER_SIZE
    ensures result == ReadFrom(k, j, [], raw[HEADER_SIZE..], recover)
  {
    hide HeadEvent, LastHash, ReadFrom;
    var found: seq<Event> := [];
    var offset := HEADER_SIZE;
    ghost var want := ReadFrom(k, j, [], raw[HEADER_SIZE..], recover);
    while offset < |raw|
      invariant HEADER_SIZE <= offset <= |raw|
      invariant want == ReadFrom(k, j, found, raw[offset..], recover)
      decreases |raw| - offset
    {
      ReadStep(k, j, found, raw, offset, recover);
      var head := HeadEvent(k, j, LastHash(found), raw[offset..]);
      if head.Failure? {
        return if head.error == TruncatedTail && recover then Success(found) else Failure(head.error);
      }
      found := found + [head.value.event];
      offset := offset + head.value.size;
    }
    ReadEnd(k, j, found, raw, recover);
    result := Success(found);
  }

  datatype Appended = Appended(event: Event, idempotent: bool)

  datatype RecoveryReport = RecoveryReport(recovered: bool, records: nat, truncatedBytes: nat)

  /** The events form one chain of this authority, numbered from 1, no two with the same changeset and state. */
  ghost predicate Chronicle(k: Codecs, j: Binding, events: seq<Event>, log: seq<Entry>) {
    && Lawful(k) && Chained(k, j, [], events)
    && (forall e | e in events :: |Payload(k, e)| < MAX_U32)
    && |log| == |events|
    && (forall i {:trigger log[i]} | 0 <= i < |log| ::
          Tagged(events[i], log[i]) && Get(events[i], KSequence) == JInt(i + 1))
    && (forall i, j | 0 <= i < j < |log| :: log[i] != log[j])
  }

  lemma ChroniclePrefix(k: Codecs, j: Binding, events: seq<Event>, log: seq<Entry>, m: nat)
    requires Chronicle(k, j, events, log) && m <= |events|
    ensures Chronicle(k, j, events[..m], log[..m])
  {
    hide Chained, Payload, Lawful, Tagged;
    ChainedPrefix(k, j, [], events, m);
    assert forall e | e in events[..m] :: e in events;
  }

  /** The file holds these events, perhaps with its tail torn off. */
  ghost predicate Holds(k: Codecs, file: Option<Bytes>, events: seq<Event>)
    requires forall e | e in events :: |Payload(k, e)| < MAX_U32
  {
    && (file.None? ==> events == [])
    && (file.Some? ==> HEADER_SIZE <= |file.value| && file.value <= Magic() + FramesAfter(k, [], events))
  }

  /**
   Opens a journal on whatever is there, without reading it. Where that is no file, or one that appending built and
   a crash may have torn, the journal holds what was recorded.
   */
  method OpenJournal(codecs: Codecs, authority: Binding, existing: Option<Bytes>, ghost past: seq<Event>,
                     ghost said: seq<Entry>)
    returns (result: Result<BinaryChangeJournal, JournalError>)
    ensures result == Failure(WorktreeRefused) <==> !IsWorktree(authority.worktreeId)
    ensures result.Failure? ==> result.error == WorktreeRefused
    ensures result.Success? ==>
      var j := result.value;
      && fresh(j) && j.k == codecs && j.binding == authority && j.file == existing && j.events == past && j.log == said
      && (Chronicle(codecs, authority, past, said) && Holds(codecs, existing, past) ==>
            && j.Damaged()
            && ((existing.Some? ==> existing.value == Magic() + FramesAfter(codecs, [], past)) ==> j.Valid()))
  {
    hide Chained, Payload, Lawful, Tagged, Magic, FramesAfter;
    if !IsWorktree(authority.worktreeId) {
      return Failure(WorktreeRefused);
    }
    var j := new BinaryChangeJournal(codecs, authority, existing, past, said);
    result := Success(j);
  }

  class BinaryChangeJournal {
    const k: Codecs
    const binding: Binding
    var file: Option<Bytes>
    /** The recorded events, and what they say. */
    ghost var events: seq<Event>
    ghost var log: seq<Entry>

    ghost predicate Recorded()
      reads this
    {
      Chronicle(k, binding, events, log)
    }

    ghost predicate Valid()
      reads this
    {
      && Recorded()
      && (file.None? ==> events == [])
      && (file.Some? ==> file.value == Magic() + FramesAfter(k, [], events))
    }

    /** A crash may have torn the tail off, but not the header. */
    ghost predicate Damaged()
      reads this
    {
      && Recorded()
      && (file.None? ==> events == [])
      && (file.Some? ==> HEADER_SIZE <= |file.value| && file.value <= Magic() + FramesAfter(k, [], events))
    }

    constructor (codecs: Codecs, authority: Binding, existing: Option<Bytes>, ghost past: seq<Event>,
                 ghost said: seq<Entry>)
      ensures k == codecs && binding == authority && file == existing && events == past && log == said
      ensures Chronicle(codecs, authority, past, said) && Holds(codecs, existing, past) ==> Damaged()
    {
      k, binding := codecs, authority;
      file := existing;
      events, log := past, said;
      new;
      hide Chained, Payload, Lawful, Tagged, Magic, FramesAfter;
    }

    method Read(recover: bool) returns (result: Result<seq<Event>, JournalError>)
      ensures result == ReadFile(k, binding, file, recover)
    {
      hide Magic, ReadFrom;
      if file.None? {
        return Success([]);
      }
      var raw := file.value;
      if !(Magic() <= raw) {
        return Failure(HeaderInvalid);
      }
      result := ReadEvents(k, binding, raw, recover);
    }

    /** On a whole file the strict reader returns exactly the recorded events. */
    lemma ReadWhole(recover: bool)
      requires Valid()
      ensures ReadFile(k, binding, file, recover) == Success(events)
    {
      hide Chained, FramesAfter;
      if file.Some? {
        var frames := FramesAfter(k, [], events);
        CompleteAll(k, [], events);
        ReadTorn(k, binding, [], events, |frames|);
        assert frames[..|frames|] == frames && events[..|events|] == events && [] + events == events;
        assert (Magic() + frames)[HEADER_SIZE..] == frames;
      }
    }

    /** The event that already records this changeset in this state. */
    method FindRecorded(found: seq<Event>, id: string, state: JournalState) returns (at: Option<nat>)
      requires Valid() && found == events
      ensures at.Some? ==> at.value < |found| && log[at.value] == Entry(id, state)
      ensures at.None? <==> Entry(id, state) !in log
    {
      hide Tagged, Chained, Payload, Lawful;
      for i := 0 to |found|
        invariant forall j | 0 <= j < i :: log[j] != Entry(id, state)
      {
        TaggedOnce(found[i], log[i], id, state);
        if Tagged(found[i], Entry(id, state)) {
          return Some(i);
        }
      }
      at := None;
    }

    /** `_ensure_header`. */
    method EnsureHeader()
      requires Valid()
      modifies this`file
      ensures Valid() && file.Some?
      ensures old(file).Some? ==> file == old(file)
    {
      if file.None? {
        file := Some(Magic());
        assert Magic() + FramesAfter(k, [], []) == Magic();
      }
    }

    predicate Accepts(c: ChangeSet) {
      c.worktreeId == binding.worktreeId && c.leaseId == binding.leaseId && c.fencingToken == binding.fencingToken
    }

    /**
     Appends one event, unless the changeset is already recorded in this state, in which case nothing
     changes; the frame goes behind the bytes that are there. An append fails only for a foreign authority
     or a length that does not fit its field, and then records nothing.
     */
    method Append(c: ChangeSet, state: JournalState, evidence: map<Name, Json>)
      returns (result: Result<Appended, JournalError>)
      requires Valid()
      modifies this
      ensures Valid()
      ensures Accepts(c) <==> result.Success? || result.error == PackError
      ensures c.worktreeId != binding.worktreeId ==> result == Failure(CrossWorktree)
      ensures c.worktreeId == binding.worktreeId && c.leaseId != binding.leaseId ==> result == Failure(LeaseMismatch)
      ensures c.worktreeId == binding.worktreeId && c.leaseId == binding.leaseId ==>
                if c.fencingToken != binding.fencingToken then result == Failure(FenceMismatch)
                else result.Success? || result.error == PackError
      ensures log == if result.Success? && Entry(ChangesetId(k, c), state) !in old(log)
                     then old(log) + [Entry(ChangesetId(k, c), state)] else old(log)
      ensures events == if result.Success? && Entry(ChangesetId(k, c), state) !in old(log)
                        then old(events) + [result.value.event] else old(events)
      ensures result.Success? ==>
        (result.value.idempotent <==> Entry(ChangesetId(k, c), state) in old(log))
      ensures result.Success? ==> result.value.event in events
      ensures result.Success? && !result.value.idempotent ==>
                && ChangeSetCodec.Encode(k, c).Success?
                && Records(binding, result.value.event, |old(events)| + 1, ChangesetId(k, c),
                           Sha256Hex(k, ChangeSetCodec.Encode(k, c).value), state, evidence)
      ensures Accepts(c) && Entry(ChangesetId(k, c), state) in old(log) ==> result.Success?
      ensures old(file).Some? ==> file.Some? && old(file.value) <= file.value
    {
      hide Records, Valid, ChangesetId, ReadFile, ChangeSetCodec.Encode, Sha256Hex;
      if c.worktreeId != binding.worktreeId { return Failure(CrossWorktree); }
      if c.leaseId != binding.leaseId { return Failure(LeaseMismatch); }
      if c.fencingToken != binding.fencingToken { return Failure(FenceMismatch); }
      ReadWhole(false);
      var found := Read(false);
      var id := ChangesetId(k, c);
      var at := FindRecorded(found.value, id, state);
      if at.Some? {
        return Success(Appended(found.value[at.value], true));
      }
      var binary := ChangeSetCodec.Encode(k, c);
      if binary.Failure? { return Failure(PackError); }
      result := Write(found.value, id, Sha256Hex(k, binary.value), state, evidence);
    }

    /** The writing half of `append`, for an event that is not recorded yet. */
    method Write(found: seq<Event>, id: string, binarySha: string, state: JournalState, evidence: map<Name, Json>)
      returns (result: Result<Appended, JournalError>)
      requires Valid() && found == events && Entry(id, state) !in log
      modifies this
      ensures Valid()
      ensures result.Failure? ==> result.error == PackError && log == old(log) && events == old(events)
      ensures result.Success? ==> !result.value.idempotent && log == old(log) + [Entry(id, state)]
                                  && events == old(events) + [result.value.event]
                                  && Records(binding, result.value.event, |old(events)| + 1, id, binarySha, state,
                                             evidence)
      ensures old(file).Some? ==> file.Some? && old(file.value) <= file.value
    {
      hide Valid, LastHash, Linked, Authorized, Tagged, Payload, EventFrame, NewEvent;
      var event := NewEvent(k, binding, found, id, binarySha, state, evidence);
      NewEventFacts(k, binding, found, id, binarySha, state, evidence);
      NewEventRecords(k, binding, found, id, binarySha, state, evidence);
      EnsureHeader();
      if |Payload(k, event)| >= MAX_U32 { return Failure(PackError); }
      WriteFrame(event, LastHash(found), Entry(id, state));
      result := Success(Appended(event, false));
    }

    /** Writes the frame of an event that links to the last one. */
    method WriteFrame(event: Event, previous: string, ghost entry: Entry)
      requires Valid() && previous == LastHash(events) && file.Some? && |Payload(k, event)| < MAX_U32
      requires Linked(k, LastHash(events), event) && Authorized(binding, event) && Tagged(event, entry)
      requires Get(event, KSequence) == JInt(|events| + 1) && entry !in log
      modifies this
      ensures Valid() && events == old(events) + [event] && log == old(log) + [entry]
      ensures file == Some(old(file.value) + EventFrame(k, LastHash(old(events)), event))
    {
      hide Chained, Payload, Lawful, Tagged, Linked, Authorized, Magic, LastHash, EventFrame;
      FramesSnoc(k, [], events, event);
      assert [] + events == events;
      ChainedSnoc(k, binding, [], events, event);
      ghost var frames := FramesAfter(k, [], events);
      var frame := EventFrame(k, previous, event);
      assert Magic() + frames + frame == Magic() + (frames + frame);
      file := Some(file.value + frame);
      events := events + [event];
      log := log + [entry];
    }

    /** A crash: only the first `n` bytes of the file survive. */
    method Tear(n: nat)
      requires Valid() && file.Some? && HEADER_SIZE <= n <= |file.value|
      modifies this`file
      ensures Damaged() && file == Some(old(file.value)[..n])
    {
      hide Chained, Payload, Lawful, Tagged, Magic;
      file := Some(file.value[..n]);
    }

    /**
     Truncates the file behind its last whole event. What remains recorded is the longest prefix of events
     whose frames survived; the strict reader then succeeds and appending goes on from there.
     */
    method Recover() returns (report: RecoveryReport)
      requires Damaged()
      modifies this
      ensures Valid()
      ensures old(file).None? ==> file == None && events == [] && report == RecoveryReport(false, 0, 0)
      ensures old(file).Some? ==>
        var m := Complete(k, [], old(events), |old(file.value)| - HEADER_SIZE);
        && events == old(events)[..m] && log == old(log)[..m]
        && file.Some? && file.value <= old(file.value)
        && report.records == m && report.truncatedBytes == |old(file.value)| - |file.value|
        && (report.recovered <==> |file.value| < |old(file.value)|)
      ensures ReadFile(k, binding, file, false) == Success(events)
    {
      hide Chained, Payload, Lawful, Tagged, Magic, ReadFile, ReadFrom, LastHash, Complete, FramesAfter;
      if file.None? {
        ReadWhole(false);
        return RecoveryReport(false, 0, 0);
      }
      var raw := file.value;
      ghost var frames := FramesAfter(k, [], events);
      ghost var n := |raw| - HEADER_SIZE;
      ghost var m := Complete(k, [], events, n);
      TornRead(k, binding, events, raw);
      CompleteIsLongest(k, [], events, n);
      var found := Read(true);
      var kept := found.value;
      var validEnd := ValidEnd(kept);
      assert Magic() + FramesAfter(k, [], kept) == raw[..validEnd] by {
        PrefixOfTorn(raw, Magic(), frames, FramesAfter(k, [], kept));
      }
      ChroniclePrefix(k, binding, events, log, m);
      report := RecoveryReport(|raw| > validEnd, |kept|, |raw| - validEnd);
      file := Some(raw[..validEnd]);
      events, log := events[..m], log[..m];
      ReadWhole(false);
    }

    /** The end of the last whole event: the header, and for each event its length, canonical text and digest. */
    method ValidEnd(kept: seq<Event>) returns (end: nat)
      requires Lawful(k) && forall e | e in kept :: |Payload(k, e)| < MAX_U32
      ensures end == HEADER_SIZE + |FramesAfter(k, [], kept)|
    {
      hide Payload, Lawful, LastHash, EventFrame, FramesAfter;
      end := HEADER_SIZE;
      NoFrames(k);
      assert kept[..0] == [];
      for i := 0 to |kept|
        invariant end == HEADER_SIZE + |FramesAfter(k, [], kept[..i])|
      {
        assert kept[..i + 1] == kept[..i] + [kept[i]] && [] + kept[..i] == kept[..i];
        FramesSnoc(k, [], kept[..i], kept[i]);
        FrameSize(k, LastHash(kept[..i]), kept[i]);
        end := end + 4 + |Payload(k, kept[i])| + 32;
      }
      assert kept[..|kept|] == kept;
    }
  }

  lemma NoFrames(k: Codecs)
    ensures FramesAfter(k, [], []) == []
  {
  }

  lemma PrefixOfTorn(raw: Bytes, magic: Bytes, frames: Bytes, kept: Bytes)
    requires raw <= magic + frames && kept <= frames && |magic| + |kept| <= |raw|
    ensures magic + kept == raw[..|magic| + |kept|]
  {
    assert magic + kept <= magic + frames;
  }

  /** Reading a torn file in recovery gives the events whose frames survived. */
  lemma TornRead(k: Codecs, j: Binding, events: seq<Event>, raw: Bytes)
    requires Lawful(k) && Chained(k, j, [], events) && forall e | e in events :: |Payload(k, e)| < MAX_U32
    requires HEADER_SIZE <= |raw| && raw <= Magic() + FramesAfter(k, [], events)
    ensures ReadFile(k, j, Some(raw), true)
            == Success(events[..Complete(k, [], events, |raw| - HEADER_SIZE)])
  {
    hide Magic, ReadFrom, Lawful, Chained, FramesAfter, Payload, Complete;
    var frames, n := FramesAfter(k, [], events), |raw| - HEADER_SIZE;
    var m := Complete(k, [], events, n);
    ReadTorn(k, j, [], events, n);
    assert raw == Magic() + frames[..n];
    assert raw[HEADER_SIZE..] == frames[..n];
    assert [] + events[..m] == events[..m];
  }

  lemma {:induction false} CompleteAll(k: Codecs, prior: seq<Event>, events: seq<Event>)
    requires forall e | e in events :: |Payload(k, e)| < MAX_U32
    ensures Complete(k, prior, events, |FramesAfter(k, prior, events)|) == |events|
    decreases |events|
  {
    hide EventFrame, Payload, LastHash;
    if events != [] {
      CompleteAll(k, prior + [events[0]], events[1..]);
    }
  }
}
